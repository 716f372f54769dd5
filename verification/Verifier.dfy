/** The client's verification of a reply (verify.go, VerifyNewRangeProofs). */
module Verifier {
  import opened Arithmetic
  import opened Primitives
  import opened Heap
  import opened Layers
  import opened SegmentTree
  import opened Accounts
  import opened AccountCache
  import opened Cover
  import opened RangeCover
  import opened Dependencies
  import opened RequiredCommitments
  import opened Snapshots
  import opened StoredTrees
  import opened ProverTrees
  import opened RangeProofs
  import opened VerifierTrees
  import opened Verification

  /** A reply is accepted, rejected with an error, or makes the program stop. */
  datatype Verdict = Accepted | Rejected | Panicked

  /** The result of looking the account up in the state trie (mpt.go, VerifyMPTProof). */
  datatype TrieLookup = Invalid | Absent | Found(hash: Hash)

  /** What ties a reply to a state root: whether a root and trie nodes were given, the result of the
      lookup, and the current balance in the reply. */
  datatype Anchor = Anchor(rootGiven: bool, nodesGiven: bool, lookup: TrieLookup, current: Option<CurrentBalance>)

  // ----- the trust anchor

  /** The commitment of the first proof of the top layer. */
  function FirstTop(proofs: seq<RangeProof>): Option<Point> {
    if proofs == [] then None
    else if proofs[0].layer == MAX_LAYER then Some(proofs[0].commitment)
    else FirstTop(proofs[1..])
  }

  /** The top-layer commitment that the trie's hash is compared with. */
  function TopCommitment(current: CurrentBalance, proofs: seq<RangeProof>, commitmentOnly: bool): Option<Point> {
    if current.version == 0 then Some(ZERO)
    else if commitmentOnly then (if |proofs| == 1 && proofs[0].layer == MAX_LAYER then Some(proofs[0].commitment) else None)
    else FirstTop(proofs)
  }

  function FinalHash(current: CurrentBalance, top: Point): Hash {
    PairHash(CurrentHash(current), CommitmentHash(top))
  }

  predicate AnchorOk(anchor: Anchor, proofs: seq<RangeProof>, commitmentOnly: bool) {
    && anchor.rootGiven == anchor.nodesGiven
    && (anchor.nodesGiven ==>
          && anchor.lookup.Found? && anchor.current.Some?
          && var top := TopCommitment(anchor.current.value, proofs, commitmentOnly);
          top.Some? && anchor.lookup.hash == FinalHash(anchor.current.value, top.value))
  }

  method FindTop(proofs: seq<RangeProof>) returns (top: Option<Point>)
    ensures top == FirstTop(proofs)
  {
    top := None;
    for i := 0 to |proofs|
      invariant top == None && FirstTop(proofs) == FirstTop(proofs[i..])
    {
      assert proofs[i..][1..] == proofs[i + 1..];
      if proofs[i].layer == MAX_LAYER {
        return Some(proofs[i].commitment);
      }
    }
  }

  method CheckAnchor(anchor: Anchor, proofs: seq<RangeProof>, commitmentOnly: bool) returns (ok: bool)
    ensures ok <==> AnchorOk(anchor, proofs, commitmentOnly)
  {
    if anchor.rootGiven != anchor.nodesGiven {
      return false;
    }
    if !anchor.nodesGiven {
      return true;
    }
    if !anchor.lookup.Found? || anchor.current == None {
      return false;
    }
    var current := anchor.current.value;
    var top;
    if current.version == 0 {
      top := Some(ZERO);
    } else if commitmentOnly {
      if |proofs| != 1 || proofs[0].layer != MAX_LAYER {
        return false;
      }
      top := Some(proofs[0].commitment);
    } else {
      top := FindTop(proofs);
    }
    // With no top-layer proof the program hashes the zero hash; no account's trie entry does.
    ok := top.Some? && anchor.lookup.hash == FinalHash(current, top.value);
  }

  // ----- the proofs by key

  /** Of several proofs with the same key the last one counts. */
  function MapOf(proofs: seq<RangeProof>): ProofMap {
    if proofs == [] then map[]
    else MapOf(proofs[..|proofs| - 1])[ProofKey(proofs[|proofs| - 1]) := proofs[|proofs| - 1]]
  }

  method BuildProofMap(proofs: seq<RangeProof>) returns (m: ProofMap)
    ensures m == MapOf(proofs)
  {
    m := map[];
    for i := 0 to |proofs|
      invariant m == MapOf(proofs[..i])
    {
      assert proofs[..i + 1][..i] == proofs[..i];
      m := m[ProofKey(proofs[i]) := proofs[i]];
    }
    assert proofs[..|proofs|] == proofs;
  }

  lemma {:induction false} MapOfMember(proofs: seq<RangeProof>, k: Key)
    requires k in MapOf(proofs)
    ensures exists i :: 0 <= i < |proofs| && proofs[i] == MapOf(proofs)[k] && ProofKey(proofs[i]) == k
  {
    var last := |proofs| - 1;
    if ProofKey(proofs[last]) != k {
      MapOfMember(proofs[..last], k);
      var i :| 0 <= i < last && proofs[..last][i] == MapOf(proofs[..last])[k] && ProofKey(proofs[..last][i]) == k;
      assert proofs[i] == MapOf(proofs)[k];
    }
  }

  lemma {:induction false} MapOfDistinct(proofs: seq<RangeProof>, i: nat)
    requires i < |proofs| && forall a, b :: 0 <= a < b < |proofs| ==> ProofKey(proofs[a]) != ProofKey(proofs[b])
    ensures ProofKey(proofs[i]) in MapOf(proofs) && MapOf(proofs)[ProofKey(proofs[i])] == proofs[i]
  {
    if i < |proofs| - 1 {
      MapOfDistinct(proofs[..|proofs| - 1], i);
    }
  }

  // ----- the order from the top layer down

  predicate NotBelow(a: Key, b: Key) {
    a.0 > b.0 || (a.0 == b.0 && a.1 >= b.1)
  }

  predicate TopDown(order: seq<Key>) {
    forall i, j :: 0 <= i < j < |order| ==> NotBelow(order[i], order[j])
  }

  function InsertKey(order: seq<Key>, k: Key): (r: seq<Key>)
    requires TopDown(order)
    ensures TopDown(r) && forall q :: q in r <==> q in order || q == k
  {
    if order == [] then [k]
    else if NotBelow(k, order[0]) then [k] + order
    else
      var rest := InsertKey(order[1..], k);
      assert forall q :: q in rest ==> NotBelow(order[0], q);
      [order[0]] + rest
  }

  /** The required commitments, largest key first. */
  ghost predicate Lists(order: seq<Key>, res: CommitmentMap) {
    TopDown(order) && forall k: Key :: k in order <==> k in res
  }

  /** The required commitments sorted by layer and index, largest first. */
  method SortTopDown(res: CommitmentMap) returns (order: seq<Key>)
    ensures Lists(order, res)
  {
    order := [];
    var pending := res.Keys;
    while pending != {}
      invariant pending <= res.Keys && TopDown(order)
      invariant forall k: Key :: k in order <==> k in res && k !in pending
    {
      var k: Key :| k in pending;
      order := InsertKey(order, k);
      pending := pending - {k};
    }
  }

  // ----- the loop

  /** The commitments that the first n handled ones have vouched for. */
  ghost predicate Vouched(res: CommitmentMap, order: seq<Key>, n: nat, verified: set<Key>) {
    && n <= |order|
    && forall i :: 0 <= i < n ==> order[i] in res && VouchesFor(order[i], res[order[i]], verified)
  }

  ghost predicate VouchesFor(k: Key, c: RangeCommitment, verified: set<Key>) {
    forall d :: d in c.dependents ==> k.0 > 1 && (k.0 - 1, d) in verified
  }

  /** The "not verified" exit never fires: every commitment below the top layer has been vouched
      for by its parent, which comes first. */
  lemma {:induction false} ParentHandled(res: CommitmentMap, sv: nat, ev: nat, order: seq<Key>, n: nat, verified: set<Key>)
    requires RequiredFor(res, sv, ev) && TopDown(order) && n < |order|
    requires forall k: Key :: k in order <==> k in res
    requires Vouched(res, order, n, verified)
    ensures order[n] in res && (order[n].0 != MAX_LAYER ==> order[n] in verified)
  {
    var k := order[n];
    assert k in order;
    IsRequired(res, sv, ev, k);
    if k.0 != MAX_LAYER {
      ParentRequired(res, sv, ev, k);
      ParentVouched(res, order, n, verified, k);
    }
  }

  lemma {:induction false} ParentVouched(res: CommitmentMap, order: seq<Key>, n: nat, verified: set<Key>, k: Key)
    requires TopDown(order) && n < |order| && order[n] == k
    requires ParentKey(k) in order && ParentKey(k) in res && k.1 in res[ParentKey(k)].dependents
    requires Vouched(res, order, n, verified)
    ensures k in verified
  {
    assert forall i :: n < i < |order| ==> NotBelow(order[n], order[i]);
    var j :| 0 <= j < |order| && order[j] == ParentKey(k);
    assert j < n;
    assert VouchesFor(order[j], res[order[j]], verified);
  }

  method CheckOpening(p: RangeProof, c: RangeCommitment, tree: HashVector) returns (ok: bool)
    requires InTree(c) && forall i :: i in OpenedNodes(c) ==> i < |tree|
    ensures ok <==> Opens(p, OpenedNodes(c), tree)
  {
    var nodes := FindNodesToInterpolate(c);
    ok := PairingCheck(p.commitment, p.opening, Values(tree, nodes));
    PairingOpens(p, nodes, tree);
  }

  function Dependents(k: Key, c: RangeCommitment): set<Key> {
    set d | d in c.dependents && k.0 > 0 :: (k.0 - 1, d)
  }

  lemma {:induction false} VouchedStep(res: CommitmentMap, sv: nat, ev: nat, order: seq<Key>, n: nat, verified: set<Key>)
    requires RequiredFor(res, sv, ev) && n < |order| && order[n] in res && Vouched(res, order, n, verified)
    ensures Vouched(res, order, n + 1, verified + Dependents(order[n], res[order[n]]))
  {
    var k := order[n];
    IsRequired(res, sv, ev, k);
    forall d | d in res[k].dependents ensures k.0 > 1 && (k.0 - 1, d) in verified + Dependents(k, res[k]) {
      assert IsChildOf(res, k, d);
    }
  }

  /** What the check of one required commitment gives; without a tree for it the program stops. */
  ghost function KeyVerdict(k: Key, res: CommitmentMap, proofs: ProofMap, bare: TreeMap): Verdict {
    if Checks(k, res, proofs, bare) then Accepted else if k in proofs && k !in bare then Panicked else Rejected
  }

  /** One required commitment: it must be in the reply, be vouched for and pass the pairing check. */
  method CheckCommitment(k: Key, res: CommitmentMap, proofs: ProofMap, trees: TreeMap, verified: set<Key>,
                         ghost sv: nat, ghost ev: nat, ghost bare: TreeMap)
    returns (verdict: Verdict)
    requires RequiredFor(res, sv, ev) && k in res && Sized(trees) && trees == AllWithSlots(bare, proofs, res.Keys)
    requires k.0 != MAX_LAYER ==> k in verified
    ensures verdict == KeyVerdict(k, res, proofs, bare)
  {
    hide Opens, OpenedNodes, WithSlots, RequiredFor;
    IsRequired(res, sv, ev, k);
    if k !in proofs {
      return Rejected;
    }
    if k.0 != MAX_LAYER && k !in verified {
      return Rejected;
    }
    RequiredNodes(res, sv, ev, k);
    if k !in trees {
      return Panicked;
    }
    var ok := CheckOpening(proofs[k], res[k], trees[k]);
    verdict := if ok then Accepted else Rejected;
  }

  /** The first n commitments in the order pass their checks. */
  ghost predicate FirstCheck(res: CommitmentMap, proofs: ProofMap, bare: TreeMap, order: seq<Key>, n: nat) {
    n <= |order| && forall i :: 0 <= i < n ==> Checks(order[i], res, proofs, bare)
  }

  lemma {:induction false} AllChecked(res: CommitmentMap, proofs: ProofMap, bare: TreeMap, order: seq<Key>)
    requires Lists(order, res) && FirstCheck(res, proofs, bare, order, |order|)
    ensures ChecksVerdict(res, proofs, bare) == Accepted
  {
    forall k: Key | k in res ensures Checks(k, res, proofs, bare) {
      var i :| 0 <= i < |order| && order[i] == k;
    }
  }

  /** The next commitment in the order. */
  method CheckNext(res: CommitmentMap, order: seq<Key>, n: nat, proofs: ProofMap, trees: TreeMap, verified: set<Key>,
                   ghost sv: nat, ghost ev: nat, ghost bare: TreeMap)
    returns (verdict: Verdict, verified': set<Key>)
    requires RequiredFor(res, sv, ev) && Sized(trees) && trees == AllWithSlots(bare, proofs, res.Keys)
    requires Lists(order, res) && n < |order| && Vouched(res, order, n, verified)
    ensures Vouched(res, order, n + 1, verified') && verdict == KeyVerdict(order[n], res, proofs, bare)
  {
    hide KeyVerdict, AllWithSlots, RequiredFor, Sized;
    ParentHandled(res, sv, ev, order, n, verified);
    verdict := CheckCommitment(order[n], res, proofs, trees, verified, sv, ev, bare);
    VouchedStep(res, sv, ev, order, n, verified);
    verified' := verified + Dependents(order[n], res[order[n]]);
  }

  lemma {:induction false} FirstCheckStep(res: CommitmentMap, proofs: ProofMap, bare: TreeMap, order: seq<Key>, n: nat)
    requires FirstCheck(res, proofs, bare, order, n) && n < |order| && KeyVerdict(order[n], res, proofs, bare) == Accepted
    ensures FirstCheck(res, proofs, bare, order, n + 1)
  {
  }

  /** The largest required key whose check fails. */
  ghost predicate FirstToFail(k: Key, res: CommitmentMap, proofs: ProofMap, bare: TreeMap) {
    && k in res && !Checks(k, res, proofs, bare)
    && forall q: Key :: q in res && q != k && NotBelow(q, k) ==> Checks(q, res, proofs, bare)
  }

  /** The checks as a whole: the first one that fails decides. */
  ghost function ChecksVerdict(res: CommitmentMap, proofs: ProofMap, bare: TreeMap): Verdict {
    if AllCheck(res, proofs, bare) then Accepted
    else if exists k: Key :: FirstToFail(k, res, proofs, bare) && KeyVerdict(k, res, proofs, bare) == Panicked then Panicked
    else Rejected
  }

  lemma {:induction false} NextFails(res: CommitmentMap, proofs: ProofMap, bare: TreeMap, order: seq<Key>, n: nat)
    requires Lists(order, res) && FirstCheck(res, proofs, bare, order, n) && n < |order|
    requires KeyVerdict(order[n], res, proofs, bare) != Accepted
    ensures ChecksVerdict(res, proofs, bare) == KeyVerdict(order[n], res, proofs, bare)
  {
    hide Checks;
    var k := order[n];
    assert k in order;
    assert forall j :: n < j < |order| ==> NotBelow(order[n], order[j]);
    forall q: Key | q in res && q != k && NotBelow(q, k) ensures Checks(q, res, proofs, bare) {
      var j :| 0 <= j < |order| && order[j] == q;
    }
    assert FirstToFail(k, res, proofs, bare);
    forall q: Key | FirstToFail(q, res, proofs, bare) ensures q == k {
      assert NotBelow(q, k) || NotBelow(k, q);
    }
  }

  lemma {:induction false} NothingChecked(res: CommitmentMap, proofs: ProofMap, bare: TreeMap, order: seq<Key>)
    ensures Vouched(res, order, 0, {}) && FirstCheck(res, proofs, bare, order, 0)
  {
  }

  /** Check all required commitments from the top layer down. */
  method CheckAll(res: CommitmentMap, proofs: ProofMap, trees: TreeMap, ghost sv: nat, ghost ev: nat, ghost bare: TreeMap)
    returns (verdict: Verdict)
    requires RequiredFor(res, sv, ev) && Sized(trees) && trees == AllWithSlots(bare, proofs, res.Keys)
    ensures verdict == ChecksVerdict(res, proofs, bare)
  {
    hide *;
    var order := SortTopDown(res);
    var verified: set<Key> := {};
    NothingChecked(res, proofs, bare, order);
    for i := 0 to |order|
      invariant Lists(order, res) && Vouched(res, order, i, verified) && FirstCheck(res, proofs, bare, order, i)
    {
      verdict, verified := CheckNext(res, order, i, proofs, trees, verified, sv, ev, bare);
      if verdict != Accepted {
        NextFails(res, proofs, bare, order, i);
        return;
      }
      FirstCheckStep(res, proofs, bare, order, i);
    }
    AllChecked(res, proofs, bare, order);
    verdict := Accepted;
  }

  // ----- the whole verification

  /** The verdict on a reply, whatever it contains. */
  ghost function Outcome(res: CommitmentMap, rangeProofs: seq<RangeProof>, balances: seq<HistoricalBalance>, anchor: Anchor): Verdict {
    if !AnchorOk(anchor, rangeProofs, balances == []) then Rejected
    else if balances == [] then Accepted
    else if !LowerSupplied(res, MapOf(rangeProofs)) then Panicked
    else ChecksVerdict(res, MapOf(rangeProofs), ListTrees(res, balances))
  }

  method VerifyNewRangeProofs(sv: nat, ev: nat, rangeProofs: seq<RangeProof>, balances: seq<HistoricalBalance>, anchor: Anchor)
    returns (verdict: Verdict, ghost res: CommitmentMap)
    requires sv <= ev
    ensures RequiredFor(res, sv, ev) && verdict == Outcome(res, rangeProofs, balances, anchor)
  {
    hide ListTrees, AllWithSlots, ChecksVerdict, Sized, AnchorOk, MapOf;
    var commitments := FindCommitmentsCoveringRange(sv, ev);
    res := commitments;
    var anchored := CheckAnchor(anchor, rangeProofs, balances == []);
    if !anchored {
      return Rejected, res;
    }
    if balances == [] {
      return Accepted, res;
    }
    var proofs := BuildProofMap(rangeProofs);
    var required := GroupByLayer(commitments);
    var ok, trees := RebuildSegmentTreeForVerify(required, balances, proofs, commitments, sv, ev);
    if !ok {
      return Panicked, res;
    }
    verdict := CheckAll(commitments, proofs, trees, sv, ev, ListTrees(commitments, balances));
  }

  // ----- errors and stops

  lemma {:induction false} LargestKey(keys: set<Key>) returns (k: Key)
    requires keys != {}
    ensures k in keys && forall q: Key :: q in keys ==> NotBelow(k, q)
  {
    var first: Key :| first in keys;
    var rest := keys - {first};
    assert forall q: Key :: q in keys ==> q == first || q in rest;
    if rest == {} {
      k := first;
    } else {
      var other := LargestKey(rest);
      k := if NotBelow(first, other) then first else other;
    }
  }

  /** The largest required key is of the top layer. */
  lemma {:induction false} LargestIsTop(res: CommitmentMap, sv: nat, ev: nat) returns (k: Key)
    requires RequiredFor(res, sv, ev) && res != map[]
    ensures k in res && k.0 == MAX_LAYER && forall q: Key :: q in res ==> NotBelow(k, q)
  {
    assert res.Keys != {};
    k := LargestKey(res.Keys);
    assert ParentKey(k) in res.Keys ==> NotBelow(k, ParentKey(k));
    RequiredAtEnd(res, sv, ev, k);
    if k.0 < MAX_LAYER {
      ParentRequired(res, sv, ev, k);
    }
  }

  /** If the check of the largest required key fails, it decides. */
  lemma {:induction false} LargestDecides(res: CommitmentMap, proofs: ProofMap, bare: TreeMap, k: Key)
    requires k in res && !Checks(k, res, proofs, bare) && forall q: Key :: q in res ==> NotBelow(k, q)
    ensures ChecksVerdict(res, proofs, bare) == if k in proofs && k !in bare then Panicked else Rejected
  {
    hide Checks;
    assert FirstToFail(k, res, proofs, bare);
    forall q: Key | FirstToFail(q, res, proofs, bare) ensures q == k {
      assert NotBelow(k, q);
    }
  }

  /** The top-layer batch of the last version, if it is required, is the largest required key. */
  lemma {:induction false} LastTopIsLargest(res: CommitmentMap, sv: nat, ev: nat)
    requires RequiredFor(res, sv, ev) && (4, ev / BatchSize(4)) in res
    ensures forall q: Key :: q in res ==> NotBelow((4, ev / BatchSize(4)), q)
  {
    forall q: Key | q in res ensures NotBelow((4, ev / BatchSize(4)), q) {
      RequiredAtEnd(res, sv, ev, q);
      Monotone(sv, ev, BatchSize(4));
    }
  }

  /** Its check comes first: without its proof the reply is rejected, and with a proof but no balance of it the program
      stops, whatever else is wrong in the upper layers. */
  lemma {:induction false} LastTopFirst(res: CommitmentMap, proofs: seq<RangeProof>, balances: seq<HistoricalBalance>, anchor: Anchor,
                                        sv: nat, ev: nat)
    requires RequiredFor(res, sv, ev) && balances != [] && AnchorOk(anchor, proofs, false) && (4, ev / BatchSize(4)) in res
    requires forall k: Key :: k in res && k.0 < 4 ==> k in MapOf(proofs)
    ensures (4, ev / BatchSize(4)) !in MapOf(proofs) ==> Outcome(res, proofs, balances, anchor).Rejected?
    ensures (4, ev / BatchSize(4)) in MapOf(proofs) && (forall b :: b in balances ==> b.current.version / BatchSize(4) != ev / BatchSize(4)) ==>
              Outcome(res, proofs, balances, anchor).Panicked?
  {
    hide AnchorOk, RequiredFor, MapOf, ChecksVerdict, Stack, BatchSize, NotBelow;
    var k: Key := (4, ev / BatchSize(4));
    LastTopIsLargest(res, sv, ev);
    if k !in MapOf(proofs) {
      LargestDecides(res, MapOf(proofs), ListTrees(res, balances), k);
    } else if forall b :: b in balances ==> b.current.version / BatchSize(4) != ev / BatchSize(4) {
      NotCopied(balances, k);
      LargestDecides(res, MapOf(proofs), ListTrees(res, balances), k);
    }
  }

  /** Without the proof of a required batch below the top layer the program stops. */
  lemma {:induction false} MissingLowerStops(res: CommitmentMap, proofs: seq<RangeProof>, balances: seq<HistoricalBalance>, anchor: Anchor, k: Key)
    requires AnchorOk(anchor, proofs, false) && balances != [] && k in res && k.0 < 4 && k !in MapOf(proofs)
    ensures Outcome(res, proofs, balances, anchor).Panicked?
  {
  }

  /** Without any proof of the top layer, when none is missing below it, the reply is rejected. */
  lemma {:induction false} MissingTopsRejected(res: CommitmentMap, proofs: seq<RangeProof>, balances: seq<HistoricalBalance>, anchor: Anchor,
                                               sv: nat, ev: nat)
    requires RequiredFor(res, sv, ev) && res != map[] && balances != [] && AnchorOk(anchor, proofs, false)
    requires forall k: Key :: k in res ==> (k in MapOf(proofs) <==> k.0 < 4)
    ensures Outcome(res, proofs, balances, anchor).Rejected?
  {
    hide AnchorOk, RequiredFor, ListTrees, MapOf, ChecksVerdict;
    var k := LargestIsTop(res, sv, ev);
    LargestDecides(res, MapOf(proofs), ListTrees(res, balances), k);
  }

  /** With all proofs, but no balance listed of any required batch of the top layer, the program stops. */
  lemma {:induction false} StrayBalancesStop(res: CommitmentMap, proofs: seq<RangeProof>, balances: seq<HistoricalBalance>, anchor: Anchor,
                                             sv: nat, ev: nat)
    requires RequiredFor(res, sv, ev) && res != map[] && balances != [] && AnchorOk(anchor, proofs, false)
    requires forall k: Key :: k in res ==> k in MapOf(proofs)
    requires forall b :: b in balances ==> (4, b.current.version / BatchSize(4)) !in res
    ensures Outcome(res, proofs, balances, anchor).Panicked?
  {
    hide AnchorOk, RequiredFor, MapOf, ChecksVerdict, Stack;
    var k := LargestIsTop(res, sv, ev);
    NotCopied(balances, k);
    LargestDecides(res, MapOf(proofs), ListTrees(res, balances), k);
  }

  lemma {:induction false} NotCopied(balances: seq<HistoricalBalance>, k: Key)
    requires k.0 == 4 && forall b :: b in balances ==> (4, b.current.version / BatchSize(4)) != k
    ensures CopyTime(balances, k, |balances|) == 0
  {
    hide BatchSize;
    forall i | 0 <= i < |balances| ensures !CopiedAt(balances, k, i) {
      assert balances[i] in balances;
    }
  }

  /** In an accepted reply the opening of every required batch belongs to its commitment and to exactly the nodes to be
      opened. */
  lemma {:induction false} AcceptedOpening(res: CommitmentMap, proofs: seq<RangeProof>, balances: seq<HistoricalBalance>, anchor: Anchor,
                                           k: Key)
    requires Outcome(res, proofs, balances, anchor).Accepted? && balances != [] && k in res
    ensures InTree(res[k]) && k in MapOf(proofs)
    ensures MapOf(proofs)[k].opening == Opening(MapOf(proofs)[k].commitment, set i | i in OpenedNodes(res[k]))
  {
    hide MapOf, ListTrees, AnchorOk;
    assert Checks(k, res, MapOf(proofs), ListTrees(res, balances));
  }
}
