/** What the client's checks establish (verify.go): soundness and completeness. */
module Verification {
  import opened Arithmetic
  import opened Primitives
  import opened Heap
  import opened Layers
  import opened SegmentTree
  import opened Accounts
  import opened Cover
  import opened RangeCover
  import opened Dependencies
  import opened RequiredCommitments
  import opened StoredTrees
  import opened RangeProofs
  import opened Snapshots
  import opened VerifierTrees
  import opened Listed

  /** The ideal pairing check: the opening is the one that belongs to the commitment and the nodes,
      and the committed vector has the given values at these nodes. */
  predicate PairingCheck(commitment: Point, opening: Opening, values: map<nat, Option<Hash>>) {
    opening == Opening(commitment, values.Keys) && forall i :: i in values ==> OpensTo(commitment, i, values[i])
  }

  function Values(tree: HashVector, nodes: seq<nat>): map<nat, Option<Hash>>
    requires forall i :: i in nodes ==> i < |tree|
  {
    map i | i in nodes :: tree[i]
  }

  ghost predicate Opens(p: RangeProof, nodes: seq<nat>, tree: HashVector) {
    && p.opening == Opening(p.commitment, NodeSet(nodes))
    && forall i :: i in nodes ==> i < |tree| && OpensTo(p.commitment, i, tree[i])
  }

  lemma {:induction false} PairingOpens(p: RangeProof, nodes: seq<nat>, tree: HashVector)
    requires forall i :: i in nodes ==> i < |tree|
    ensures PairingCheck(p.commitment, p.opening, Values(tree, nodes)) <==> Opens(p, nodes, tree)
  {
    var values := Values(tree, nodes);
    assert values.Keys == NodeSet(nodes);
    if Opens(p, nodes, tree) {
      forall i | i in values ensures OpensTo(p.commitment, i, values[i]) {
        assert i in nodes;
      }
    }
    if PairingCheck(p.commitment, p.opening, values) {
      forall i | i in nodes ensures OpensTo(p.commitment, i, tree[i]) {
        assert i in values;
      }
    }
  }

  /** The reply's proof for batch k opens the nodes required of it to their values in the client's tree, of
      which `bare` has the part made of leaves. */
  ghost predicate Checks(k: Key, res: CommitmentMap, proofs: ProofMap, bare: TreeMap) {
    && 0 < k.0 <= MAX_LAYER && k in res && InTree(res[k]) && k in proofs && k in bare
    && Opens(proofs[k], OpenedNodes(res[k]), WithSlots(bare[k], k, proofs, res.Keys))
  }

  ghost predicate AllCheck(res: CommitmentMap, proofs: ProofMap, bare: TreeMap) {
    forall k: Key :: k in res ==> Checks(k, res, proofs, bare)
  }

  /** The client's tree of batch k over the versions w. */
  function ClientTree(k: Key, w: Versions, proofs: ProofMap, placed: set<Key>): (t: HashVector)
    requires 0 < k.0 <= MAX_LAYER
    ensures |t| == TREE_SIZE
  {
    WithSlots(BareTree(k.0, k.1, w), k, proofs, placed)
  }

  // ----- soundness

  /** If the reply has a proof for top-layer batch b, it carries the commitment of the tree over the versions m. */
  ghost predicate HonestTop(proofs: ProofMap, m: Versions, b: nat) {
    (MAX_LAYER, b) in proofs ==> proofs[(MAX_LAYER, b)].commitment == Commit(FullTree(MAX_LAYER, b, m))
  }

  lemma {:induction false} ChildSlot(k: Key, t: HashVector, proofs: ProofMap, placed: set<Key>, m: Versions)
    requires 0 < k.0 < MAX_LAYER && k in proofs && k in placed && Slot(k.1 % L2) < |t|
    ensures var p, i := ParentKey(k), Slot(k.1 % L2);
            && WithSlots(t, p, proofs, placed)[i] == Some(CommitmentHash(proofs[k].commitment))
            && FullTree(p.0, p.1, m)[i] == SlotValue(k.0, k.1, m)
  {
    var p, j := ParentKey(k), k.1 % L2;
    assert k.1 == p.1 * L2 + j;
    assert SlotEntry(p, proofs, placed, Slot(j)) == SuppliedSlot(k, proofs, placed);
    TreeAt(Leaves(p.0, p.1, m), Slots(p.0, p.1, m), Slot(j));
    assert Slots(p.0, p.1, m)[j] == SlotValue(p.0 - 1, p.1 * L2 + j, m);
  }

  lemma {:induction false} SlotOpened(c: RangeCommitment, d: nat)
    requires InTree(c) && d in c.dependents
    ensures Slot(d % L2) in OpenedNodes(c)
  {
    var i :| 0 <= i < |c.dependents| && c.dependents[i] == d;
    assert OpenedNodes(c)[i] == Slot(d % L2);
  }

  /** Going down from the top layer, every commitment above a version is authentic if the one of the top layer
      is: its hash is in a slot of its parent's tree, which the parent's commitment opens. */
  lemma {:induction false} Authentic(res: CommitmentMap, proofs: ProofMap, bare: TreeMap, sv: nat, ev: nat, m: Versions, k: Key, v: nat)
    requires RequiredFor(res, sv, ev) && AllCheck(res, proofs, bare) && HonestTop(proofs, m, v / BatchSize(MAX_LAYER))
    requires k in res && 0 < k.0 <= MAX_LAYER && InBatch(k.0, k.1, v)
    ensures k in proofs && proofs[k].commitment == Commit(FullTree(k.0, k.1, m))
    decreases MAX_LAYER - k.0
  {
    hide Commit, FullTree, OpenedNodes, Opens, RequiredFor, BatchSize, WithSlots;
    assert Checks(k, res, proofs, bare);
    if k.0 < MAX_LAYER {
      var p := ParentKey(k);
      ParentRequired(res, sv, ev, k);
      ParentContains(k, v);
      Authentic(res, proofs, bare, sv, ev, m, p, v);
      assert Checks(p, res, proofs, bare);
      ChildAuthentic(res, proofs, bare, m, k);
    }
  }

  lemma {:induction false} ParentContains(k: Key, v: nat)
    requires 0 < k.0 < MAX_LAYER && InBatch(k.0, k.1, v)
    ensures InBatch(ParentKey(k).0, ParentKey(k).1, v)
  {
    BatchOfBatch(k.0 + 1, v);
  }

  lemma {:induction false} ChildAuthentic(res: CommitmentMap, proofs: ProofMap, bare: TreeMap, m: Versions, k: Key)
    requires 0 < k.0 < MAX_LAYER && k in res && k in proofs
    requires Checks(ParentKey(k), res, proofs, bare) && k.1 in res[ParentKey(k)].dependents
    requires proofs[ParentKey(k)].commitment == Commit(FullTree(ParentKey(k).0, ParentKey(k).1, m))
    ensures proofs[k].commitment == Commit(FullTree(k.0, k.1, m))
  {
    var p, i := ParentKey(k), Slot(k.1 % L2);
    SlotOpened(res[p], k.1);
    ChildSlot(k, bare[p], proofs, res.Keys, m);
    OpensToEntry(FullTree(p.0, p.1, m), i, WithSlots(bare[p], p, proofs, res.Keys)[i]);
  }

  lemma {:induction false} CountBeneathMember(c: RangeCommitment, i: nat, v: nat)
    requires InTree(c) && i in CoverNodes(c) && Beneath(c.layer, c.idx, i, v)
    ensures CountBeneath(c, v) >= 1
  {
    var nodes := CoverNodes(c);
    var n :| 0 <= n < |nodes| && nodes[n] == i;
    CountAboveMember(nodes, n, Arity(c.layer) - 1 + v / BatchSize(c.layer - 1) % Arity(c.layer));
  }

  ghost predicate RequiredAt(res: CommitmentMap, k: Key) {
    k in res && 0 < k.0 <= MAX_LAYER && KeyOf(res[k]) == k && InTree(res[k])
  }

  lemma {:induction false} IsRequired(res: CommitmentMap, sv: nat, ev: nat, k: Key)
    requires RequiredFor(res, sv, ev) && k in res
    ensures RequiredAt(res, k)
  {
    RequiredInTree(res, sv, ev, k);
  }

  /** Every version beneath an opened covering node lies in the range. */
  lemma {:induction false} BeneathInRange(res: CommitmentMap, sv: nat, ev: nat, k: Key, c: nat, v: nat)
    requires RequiredFor(res, sv, ev) && RequiredAt(res, k)
    requires c in CoverNodes(res[k]) && Beneath(k.0, k.1, c, v)
    ensures sv <= v <= ev
  {
    CountBeneathMember(res[k], c, v);
    CoveredInRange(res, sv, ev, k, v);
  }

  lemma {:induction false} CoveredInRange(res: CommitmentMap, sv: nat, ev: nat, k: Key, v: nat)
    requires RequiredFor(res, sv, ev) && RequiredAt(res, k) && CountBeneath(res[k], v) >= 1
    ensures sv <= v <= ev
  {
    RequiredCount(res, sv, ev, k, v);
    RequiredFragment(res, sv, ev, k);
  }

  lemma {:induction false} CoverNode(c: RangeCommitment, i: nat)
    requires InTree(c) && i in CoverNodes(c)
    ensures i < 2 * Arity(c.layer) - 1 && i in OpenedNodes(c)
  {
    CoverNodesDistinct(c);
  }

  /** A version of the range that is beneath an opened node of an authentic commitment. */
  lemma {:induction false} OpenedVersion(res: CommitmentMap, sv: nat, ev: nat, v: nat) returns (k: Key, c: nat)
    requires RequiredFor(res, sv, ev) && sv <= v <= ev && !InCompleteTop(sv, ev, v)
    ensures RequiredAt(res, k) && c in CoverNodes(res[k]) && Beneath(k.0, k.1, c, v)
  {
    hide Arity, BatchSize, CoverNodes;
    EndToEndCover(res, sv, ev, v);
    k :| OpenedOnce(res, v, k);
    IsRequired(res, sv, ev, k);
    c := CountAboveWitness(CoverNodes(res[k]), Arity(k.0) - 1 + v / BatchSize(k.0 - 1) % Arity(k.0));
  }

  /** The slots are behind the nodes over the leaves. */
  lemma {:induction false} BareNode(t: HashVector, k: Key, proofs: ProofMap, placed: set<Key>, c: nat)
    requires 0 < k.0 <= MAX_LAYER && c < 2 * Arity(k.0) - 1 && c < |t|
    ensures WithSlots(t, k, proofs, placed)[c] == t[c]
  {
  }

  lemma {:induction false} ClientNode(k: Key, w: Versions, proofs: ProofMap, placed: set<Key>, c: nat)
    requires 0 < k.0 <= MAX_LAYER && c < 2 * Arity(k.0) - 1
    ensures ClientTree(k, w, proofs, placed)[c] == Merkle(Leaves(k.0, k.1, w), c)
  {
    BareNode(BareTree(k.0, k.1, w), k, proofs, placed, c);
    TreeAt(Leaves(k.0, k.1, w), [], c);
  }

  lemma {:induction false} FullNode(k: Key, m: Versions, c: nat)
    requires 0 < k.0 <= MAX_LAYER && c < 2 * Arity(k.0) - 1
    ensures FullTree(k.0, k.1, m)[c] == Merkle(Leaves(k.0, k.1, m), c)
  {
    TreeAt(Leaves(k.0, k.1, m), Slots(k.0, k.1, m), c);
  }

  /** A node opened above a version holds the committed hash. */
  lemma {:induction false} CommittedNode(res: CommitmentMap, proofs: ProofMap, bare: TreeMap, sv: nat, ev: nat, m: Versions, v: nat)
    returns (k: Key, c: nat)
    requires RequiredFor(res, sv, ev) && AllCheck(res, proofs, bare) && HonestTop(proofs, m, v / BatchSize(MAX_LAYER))
    requires sv <= v <= ev && !InCompleteTop(sv, ev, v)
    ensures RequiredAt(res, k) && c in CoverNodes(res[k]) && Beneath(k.0, k.1, c, v) && c < 2 * Arity(k.0) - 1
    ensures k in bare && c < |bare[k]| && bare[k][c] == Merkle(Leaves(k.0, k.1, m), c)
  {
    hide Commit, FullTree, RequiredFor, BatchSize, WithSlots, CoverNodes, Merkle, OpensTo, InCompleteTop, Arity;
    k, c := OpenedVersion(res, sv, ev, v);
    Authentic(res, proofs, bare, sv, ev, m, k, v);
    assert Checks(k, res, proofs, bare);
    CoverNode(res[k], c);
    BareNode(bare[k], k, proofs, res.Keys, c);
    FullNode(k, m, c);
    OpensToEntry(FullTree(k.0, k.1, m), c, WithSlots(bare[k], k, proofs, res.Keys)[c]);
  }

  /** If the commitment of its top-layer batch is authentic, the supplied leaf hash of a version is the
      committed one, unless that whole batch lies in the range. */
  lemma {:induction false} CommittedAt(res: CommitmentMap, proofs: ProofMap, w: Versions, sv: nat, ev: nat, m: Versions, v: nat)
    requires RequiredFor(res, sv, ev) && AllCheck(res, proofs, BareTrees(res, w)) && HonestTop(proofs, m, v / BatchSize(MAX_LAYER))
    requires forall v': nat :: sv <= v' <= ev ==> v' in w
    requires sv <= v <= ev && !InCompleteTop(sv, ev, v)
    ensures v in m && w[v] == m[v]
  {
    hide AllCheck, RequiredFor, Merkle, Arity, CoverNodes, BatchSize, InCompleteTop;
    var k, c := CommittedNode(res, proofs, BareTrees(res, w), sv, ev, m, v);
    TreeAt(Leaves(k.0, k.1, w), [], c);
    forall v': nat | Beneath(k.0, k.1, c, v') ensures v' in w {
      BeneathInRange(res, sv, ev, k, c, v');
    }
    NodeFull(k.0, k.1, c, w);
    NodeInjective(k.0, k.1, c, m, w, v);
  }

  /** Soundness: if the commitment of its top-layer batch is authentic, in an accepted reply with in-order
      versions the balance of a version is the one in the account's history, unless that whole batch lies
      in the range. */
  lemma {:induction false} SoundAt(res: CommitmentMap, proofs: ProofMap, balances: seq<HistoricalBalance>, sv: nat, ev: nat, u: Updates, v: nat)
    requires RequiredFor(res, sv, ev) && InOrder(balances, sv, ev)
    requires AllCheck(res, proofs, ListTrees(res, balances)) && HonestTop(proofs, LeafHashes(u), v / BatchSize(MAX_LAYER))
    requires sv <= v <= ev && !InCompleteTop(sv, ev, v)
    ensures v < |u| - 1 && balances[v - sv] == Superseded(u, v)
  {
    TreesInOrder(res, balances, sv, ev);
    CommittedAt(res, proofs, Supplied(balances, sv), sv, ev, LeafHashes(u), v);
    assert Supplied(balances, sv)[v] == SuppliedHash(balances, sv, v);
  }

  /** Fewer versions than a top-layer batch has contain no complete top-layer batch. */
  lemma {:induction false} ShortRange(sv: nat, ev: nat, v: nat)
    requires sv <= ev && ev + 1 - sv < BatchSize(MAX_LAYER)
    ensures !InCompleteTop(sv, ev, v)
  {
  }

  /** No complete top-layer batch lies in the range, and the commitments of those of its versions are authentic. */
  ghost predicate HonestThroughout(proofs: ProofMap, m: Versions, sv: nat, ev: nat) {
    forall v: nat :: sv <= v <= ev ==> !InCompleteTop(sv, ev, v) && HonestTop(proofs, m, v / BatchSize(MAX_LAYER))
  }

  lemma {:induction false} Sound(res: CommitmentMap, proofs: ProofMap, balances: seq<HistoricalBalance>, sv: nat, ev: nat, u: Updates)
    requires RequiredFor(res, sv, ev) && InOrder(balances, sv, ev) && AllCheck(res, proofs, ListTrees(res, balances))
    requires HonestThroughout(proofs, LeafHashes(u), sv, ev)
    ensures ev < |u| - 1 && balances == History(u, sv, ev)
  {
    SoundAt(res, proofs, balances, sv, ev, u, ev);
    forall i | 0 <= i < |balances| ensures balances[i] == History(u, sv, ev)[i] {
      SoundAt(res, proofs, balances, sv, ev, u, sv + i);
    }
  }

  // ----- soundness for balances in any order

  lemma {:induction false} OpenedSome(res: CommitmentMap, sv: nat, ev: nat, m: Versions, k: Key, c: nat)
    requires RequiredFor(res, sv, ev) && RequiredAt(res, k) && c in CoverNodes(res[k]) && c < 2 * Arity(k.0) - 1
    requires forall v: nat :: sv <= v <= ev ==> v in m
    ensures Merkle(Leaves(k.0, k.1, m), c).Some?
  {
    forall v: nat | Beneath(k.0, k.1, c, v) ensures v in m {
      BeneathInRange(res, sv, ev, k, c, v);
    }
    NodeFull(k.0, k.1, c, m);
  }

  lemma {:induction false} CopiedListed(res: CommitmentMap, balances: seq<HistoricalBalance>, k: Key, c: nat)
    requires k in ListTrees(res, balances) && c < |ListTrees(res, balances)[k]|
    ensures var h := ListTrees(res, balances)[k][c]; h.Some? ==> OnlyListed(h.value, balances)
  {
    var time := CopyTime(balances, k, |balances|);
    ReplayListed(balances, time);
    TreeListedAt(Stack(balances, time)[k.0 - 1], c, balances);
  }

  /** If the commitment of its top-layer batch is authentic, a version of the range is committed to by listed
      balances alone, in whatever order and number the balances are listed. */
  lemma {:induction false} CommittedListed(res: CommitmentMap, proofs: ProofMap, balances: seq<HistoricalBalance>, sv: nat, ev: nat,
                                           m: Versions, v: nat)
    requires RequiredFor(res, sv, ev) && AllCheck(res, proofs, ListTrees(res, balances))
    requires HonestTop(proofs, m, v / BatchSize(MAX_LAYER)) && forall v': nat :: sv <= v' <= ev ==> v' in m
    requires sv <= v <= ev && !InCompleteTop(sv, ev, v)
    ensures OnlyListed(m[v], balances)
  {
    hide AllCheck, RequiredFor, Merkle, Arity, CoverNodes, BatchSize, InCompleteTop, ListTrees, HonestTop, OnlyListed;
    var k, c := CommittedNode(res, proofs, ListTrees(res, balances), sv, ev, m, v);
    OpenedSome(res, sv, ev, m, k, c);
    CopiedListed(res, balances, k, c);
    NodeListed(k.0, k.1, c, m, v, balances);
  }

  /** Soundness for any list: the account's balance of the version is among those listed. */
  lemma {:induction false} ListedSoundAt(res: CommitmentMap, proofs: ProofMap, balances: seq<HistoricalBalance>, sv: nat, ev: nat, u: Updates,
                                         v: nat)
    requires RequiredFor(res, sv, ev) && ev < |u| - 1 && AllCheck(res, proofs, ListTrees(res, balances))
    requires HonestTop(proofs, LeafHashes(u), v / BatchSize(MAX_LAYER)) && sv <= v <= ev && !InCompleteTop(sv, ev, v)
    ensures Superseded(u, v) in balances
  {
    CommittedListed(res, proofs, balances, sv, ev, LeafHashes(u), v);
  }

  lemma {:induction false} Once<T>(s: seq<T>, x: T)
    requires forall i, j :: 0 <= i < j < |s| ==> s[i] != s[j]
    ensures multiset(s)[x] <= 1
  {
    if s != [] {
      var last := |s| - 1;
      assert s == s[..last] + [s[last]];
      Once(s[..last], x);
      assert x == s[last] ==> x !in s[..last];
    }
  }

  /** Distinct elements that are all listed, with no room for others, are the list in some order. */
  lemma {:induction false} NoRoom<T>(s: seq<T>, list: seq<T>)
    requires forall i, j :: 0 <= i < j < |s| ==> s[i] != s[j]
    requires forall x :: x in s ==> x in list
    ensures |s| <= |list|
    ensures |s| == |list| ==> multiset(list) == multiset(s)
  {
    forall x | x in multiset(s) ensures multiset(s)[x] <= multiset(list)[x] {
      Once(s, x);
      assert x in s;
    }
    var rest := multiset(list) - multiset(s);
    assert multiset(list) == multiset(s) + rest;
  }

  lemma {:induction false} HistoryDistinct(u: Updates, sv: nat, ev: nat)
    requires sv <= ev < |u| - 1
    ensures var h := History(u, sv, ev); forall i, j :: 0 <= i < j < |h| ==> h[i] != h[j]
  {
    var h := History(u, sv, ev);
    forall i, j | 0 <= i < j < |h| ensures h[i] != h[j] {
      assert h[i] == Superseded(u, sv + i) && h[j] == Superseded(u, sv + j);
    }
  }

  /** So a list has at least as many balances as the range has versions, and if it has no more, it is the
      account's history of the range in some order. */
  lemma {:induction false} ListedSound(res: CommitmentMap, proofs: ProofMap, balances: seq<HistoricalBalance>, sv: nat, ev: nat, u: Updates)
    requires RequiredFor(res, sv, ev) && ev < |u| - 1 && AllCheck(res, proofs, ListTrees(res, balances))
    requires HonestThroughout(proofs, LeafHashes(u), sv, ev)
    ensures |balances| >= ev + 1 - sv
    ensures multiset(balances) == multiset(History(u, sv, ev)) <==> |balances| == ev + 1 - sv
  {
    hide AllCheck, InCompleteTop, ListTrees, HonestTop, BatchSize, Superseded;
    var h := History(u, sv, ev);
    HistoryDistinct(u, sv, ev);
    forall x | x in h ensures x in balances {
      var i :| 0 <= i < |h| && h[i] == x;
      ListedSoundAt(res, proofs, balances, sv, ev, u, sv + i);
    }
    NoRoom(h, balances);
    assert |multiset(balances)| == |balances| && |multiset(h)| == |h|;
  }

  // ----- the exception is real: such versions are not looked at

  /** The checks do not depend on the balance of a version whose whole top-layer batch lies in the
      range. */
  lemma {:induction false} NotLookedAt(res: CommitmentMap, proofs: ProofMap, w: Versions, w': Versions, sv: nat, ev: nat, v: nat)
    requires RequiredFor(res, sv, ev) && InCompleteTop(sv, ev, v)
    requires forall v': nat :: v' != v ==> SameAt(w, w', v')
    requires AllCheck(res, proofs, BareTrees(res, w))
    ensures AllCheck(res, proofs, BareTrees(res, w'))
  {
    forall k: Key | k in res ensures Checks(k, res, proofs, BareTrees(res, w')) {
      assert Checks(k, res, proofs, BareTrees(res, w));
      IsRequired(res, sv, ev, k);
      NotBeneath(res, sv, ev, v, k);
      forall i | i in OpenedNodes(res[k])
        ensures ClientTree(k, w, proofs, res.Keys)[i] == ClientTree(k, w', proofs, res.Keys)[i]
      {
        SameOpened(res, proofs, w, w', sv, ev, v, k, i);
      }
    }
  }

  lemma {:induction false} NotBeneath(res: CommitmentMap, sv: nat, ev: nat, v: nat, k: Key)
    requires RequiredFor(res, sv, ev) && InCompleteTop(sv, ev, v) && RequiredAt(res, k)
    ensures CountBeneath(res[k], v) == 0
  {
    EndToEndCover(res, sv, ev, v);
    assert !OpenedOnce(res, v, k);
  }

  lemma {:induction false} SameOpened(res: CommitmentMap, proofs: ProofMap, w: Versions, w': Versions, sv: nat, ev: nat, v: nat, k: Key, i: nat)
    requires RequiredFor(res, sv, ev) && RequiredAt(res, k) && CountBeneath(res[k], v) == 0
    requires forall v': nat :: v' != v ==> SameAt(w, w', v')
    requires i in OpenedNodes(res[k]) && i < TREE_SIZE
    ensures ClientTree(k, w, proofs, res.Keys)[i] == ClientTree(k, w', proofs, res.Keys)[i]
  {
    if i in CoverNodes(res[k]) {
      CoverNode(res[k], i);
      ClientNode(k, w, proofs, res.Keys, i);
      ClientNode(k, w', proofs, res.Keys, i);
      if Beneath(k.0, k.1, i, v) {
        CountBeneathMember(res[k], i, v);
      }
      NodeLocal(k.0, k.1, i, w, w');
    } else {
      var j := SlotNode(res, sv, ev, k, i);
      TreeAt(Leaves(k.0, k.1, w), [], i);
      TreeAt(Leaves(k.0, k.1, w'), [], i);
    }
  }

  lemma {:induction false} SlotNode(res: CommitmentMap, sv: nat, ev: nat, k: Key, i: nat) returns (j: nat)
    requires RequiredFor(res, sv, ev) && RequiredAt(res, k)
    requires i in OpenedNodes(res[k]) && i !in CoverNodes(res[k])
    ensures 1 < k.0 <= MAX_LAYER && j < L2 && i == Slot(j) && (k.0 - 1, k.1 * L2 + j) in res
  {
    var c := res[k];
    var n :| 0 <= n < |OpenedNodes(c)| && OpenedNodes(c)[n] == i;
    var d := c.dependents[n];
    assert d in c.dependents;
    assert IsChildOf(res, k, d);
    j := d % L2;
    assert d == k.1 * L2 + j;
  }

  // ----- completeness

  /** The reply's proofs are the ones of the account's trees. */
  ghost predicate HonestReply(res: CommitmentMap, proofs: ProofMap, u: Updates) {
    forall k: Key :: k in res ==>
      InTree(res[k]) && k in proofs &&
      var commitment := Commit(FullTree(res[k].layer, res[k].idx, LeafHashes(u)));
      proofs[k].commitment == commitment && proofs[k].opening == Opening(commitment, NodeSet(OpenedNodes(res[k])))
  }

  /** Every node that is opened has, in the client's tree built from the range alone, a hash: the
      one in the prover's tree. */
  lemma {:induction false} OpenedNodeAgrees(res: CommitmentMap, proofs: ProofMap, w: Versions, sv: nat, ev: nat, u: Updates, k: Key, i: nat)
    requires RequiredFor(res, sv, ev) && ev < |u| - 1 && HonestReply(res, proofs, u)
    requires forall v: nat :: sv <= v <= ev ==> v in w && w[v] == LeafHashes(u)[v]
    requires RequiredAt(res, k) && i in OpenedNodes(res[k]) && i < TREE_SIZE
    ensures ClientTree(k, w, proofs, res.Keys)[i] == FullTree(k.0, k.1, LeafHashes(u))[i]
    ensures FullTree(k.0, k.1, LeafHashes(u))[i].Some?
  {
    if i in CoverNodes(res[k]) {
      CoverNodeAgrees(res, proofs, w, sv, ev, u, k, i);
    } else {
      var j := SlotNode(res, sv, ev, k, i);
      var child: Key := (k.0 - 1, k.1 * L2 + j);
      RequiredStarted(res, sv, ev, u, child);
      IsRequired(res, sv, ev, child);
      ChildAgrees(res, proofs, w, u, k, j);
    }
  }

  lemma {:induction false} ChildAgrees(res: CommitmentMap, proofs: ProofMap, w: Versions, u: Updates, k: Key, j: nat)
    requires 1 < k.0 <= MAX_LAYER && j < L2
    requires RequiredAt(res, (k.0 - 1, k.1 * L2 + j)) && Started((k.0 - 1, k.1 * L2 + j), u) && HonestReply(res, proofs, u)
    ensures ClientTree(k, w, proofs, res.Keys)[Slot(j)] == FullTree(k.0, k.1, LeafHashes(u))[Slot(j)]
    ensures FullTree(k.0, k.1, LeafHashes(u))[Slot(j)].Some?
  {
    var child: Key := (k.0 - 1, k.1 * L2 + j);
    DivUnique(child.1, L2, k.1, j);
    ChildSlot(child, BareTree(k.0, k.1, w), proofs, res.Keys, LeafHashes(u));
    FirstPresent(child, u);
  }

  lemma {:induction false} CoverNodeAgrees(res: CommitmentMap, proofs: ProofMap, w: Versions, sv: nat, ev: nat, u: Updates, k: Key, i: nat)
    requires RequiredFor(res, sv, ev) && ev < |u| - 1
    requires forall v: nat :: sv <= v <= ev ==> v in w && w[v] == LeafHashes(u)[v]
    requires RequiredAt(res, k) && i in CoverNodes(res[k])
    ensures i < TREE_SIZE && ClientTree(k, w, proofs, res.Keys)[i] == FullTree(k.0, k.1, LeafHashes(u))[i]
    ensures FullTree(k.0, k.1, LeafHashes(u))[i].Some?
  {
    var m := LeafHashes(u);
    CoverNode(res[k], i);
    ClientNode(k, w, proofs, res.Keys, i);
    FullNode(k, m, i);
    forall v: nat | Beneath(k.0, k.1, i, v) ensures SameAt(w, m, v) && v in m {
      BeneathInRange(res, sv, ev, k, i, v);
    }
    NodeLocal(k.0, k.1, i, w, m);
    NodeFull(k.0, k.1, i, m);
  }

  lemma {:induction false} HistoryInOrder(u: Updates, sv: nat, ev: nat)
    requires sv <= ev < |u| - 1
    ensures InOrder(History(u, sv, ev), sv, ev)
  {
    var h := History(u, sv, ev);
    forall i | 0 <= i < |h| ensures h[i].current.version == sv + i {
      assert h[i] == Superseded(u, sv + i);
    }
  }

  /** Completeness: honest proofs and balances pass every check. */
  lemma {:induction false} Complete(res: CommitmentMap, proofs: ProofMap, sv: nat, ev: nat, u: Updates)
    requires RequiredFor(res, sv, ev) && ev < |u| - 1 && HonestReply(res, proofs, u)
    ensures AllCheck(res, proofs, ListTrees(res, History(u, sv, ev)))
  {
    var w := Supplied(History(u, sv, ev), sv);
    forall v: nat | sv <= v <= ev ensures v in w && w[v] == LeafHashes(u)[v] {
      assert w[v] == SuppliedHash(History(u, sv, ev), sv, v);
    }
    forall k: Key | k in res ensures Checks(k, res, proofs, BareTrees(res, w)) {
      HonestChecks(res, proofs, w, sv, ev, u, k);
    }
    HistoryInOrder(u, sv, ev);
    TreesInOrder(res, History(u, sv, ev), sv, ev);
  }

  lemma {:induction false} HonestChecks(res: CommitmentMap, proofs: ProofMap, w: Versions, sv: nat, ev: nat, u: Updates, k: Key)
    requires RequiredFor(res, sv, ev) && ev < |u| - 1 && HonestReply(res, proofs, u)
    requires forall v: nat :: sv <= v <= ev ==> v in w && w[v] == LeafHashes(u)[v]
    requires k in res
    ensures Checks(k, res, proofs, BareTrees(res, w))
  {
    IsRequired(res, sv, ev, k);
    RequiredNodes(res, sv, ev, k);
    var t, full := ClientTree(k, w, proofs, res.Keys), FullTree(k.0, k.1, LeafHashes(u));
    forall i | i in OpenedNodes(res[k]) ensures OpensTo(proofs[k].commitment, i, t[i]) {
      OpenedNodeAgrees(res, proofs, w, sv, ev, u, k, i);
      OpensToEntry(full, i, t[i]);
    }
  }
}
