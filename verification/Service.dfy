/** The client of the proof service: what it does with a reply, and that the server's replies pass (proofc/main.go). */
module Service {
  import opened Primitives
  import opened Layers
  import opened SegmentTree
  import opened Accounts
  import opened AccountObjects
  import opened AccountCache
  import opened Dependencies
  import opened RequiredCommitments
  import opened StoredTrees
  import opened ProverTrees
  import opened RangeProofs
  import opened ReplyShape
  import opened VerifierTrees
  import opened Verification
  import opened Verifier
  import opened EndToEnd
  import opened VersionSearch

  // ----- the client

  /** The smallest and the largest version listed, or 0 and 0. */
  ghost predicate Spans(balances: seq<HistoricalBalance>, sv: nat, ev: nat) {
    if balances == [] then sv == ev == 0
    else
      && (forall b :: b in balances ==> sv <= b.current.version <= ev)
      && (exists b :: b in balances && b.current.version == sv)
      && (exists b :: b in balances && b.current.version == ev)
  }

  lemma {:induction false} SpansInOrder(balances: seq<HistoricalBalance>, sv: nat, ev: nat, sv': nat, ev': nat)
    requires InOrder(balances, sv, ev) && sv <= ev && Spans(balances, sv', ev')
    ensures sv' == sv && ev' == ev
  {
    assert balances[0] in balances && balances[|balances| - 1] in balances;
    var b :| b in balances && b.current.version == sv';
    var i :| 0 <= i < |balances| && balances[i] == b;
    var c :| c in balances && c.current.version == ev';
    var j :| 0 <= j < |balances| && balances[j] == c;
  }

  method VersionSpan(balances: seq<HistoricalBalance>) returns (sv: nat, ev: nat)
    requires forall b :: b in balances ==> b.current.version <= MAX_UINT64
    ensures Spans(balances, sv, ev) && sv <= ev
  {
    sv, ev := 0, 0;
    if balances == [] {
      return;
    }
    sv := MAX_UINT64;
    for i := 0 to |balances|
      invariant forall b :: b in balances[..i] ==> sv <= b.current.version <= ev
      invariant if i == 0 then sv == MAX_UINT64 && ev == 0 else (exists b :: b in balances[..i] && b.current.version == sv)
      invariant i > 0 ==> ev == 0 || exists b :: b in balances[..i] && b.current.version == ev
      invariant i > 0 ==> sv <= ev
    {
      var b := balances[i];
      assert balances[..i + 1] == balances[..i] + [b] && b in balances;
      if b.current.version < sv {
        sv := b.current.version;
      }
      if b.current.version > ev {
        ev := b.current.version;
      }
    }
    assert balances[..|balances|] == balances;
  }

  /** Verify a reply for the versions that it lists (verifyResponse). */
  method VerifyResponse(rangeProofs: seq<RangeProof>, balances: seq<HistoricalBalance>, anchor: Anchor)
    returns (verdict: Verdict, ghost sv: nat, ghost ev: nat, ghost res: CommitmentMap)
    requires forall b :: b in balances ==> b.current.version <= MAX_UINT64
    ensures Spans(balances, sv, ev) && RequiredFor(res, sv, ev) && verdict == Outcome(res, rangeProofs, balances, anchor)
  {
    var first, last := VersionSpan(balances);
    sv, ev := first, last;
    verdict, res := VerifyNewRangeProofs(first, last, rangeProofs, balances, anchor);
  }

  // ----- the server's replies are accepted

  function ProofsIn(response: Response): seq<RangeProof> {
    match response
    case TopOnly(_, top) => [top]
    case FullRange(_, _, _, proofs, _) => proofs
    case _ => []
  }

  function BalancesIn(response: Response): seq<HistoricalBalance> {
    if response.FullRange? then response.balances else []
  }

  /** The reply as the client sees it: with a state root and trie nodes for the account's entry. */
  function AnchorOf(response: Response, u: Updates): Anchor
    requires response.CurrentOnly? || response.TopOnly? || response.FullRange?
  {
    Anchor(true, true, Found(CommitmentAfter(u)), Some(response.current))
  }

  /** The current balance alone, for an account at version 0. */
  lemma {:induction false} CurrentOnlyAccepted(response: Response, u: Updates, res: CommitmentMap)
    requires |u| == 1 && response == CurrentOnly(Current(u))
    ensures Outcome(res, ProofsIn(response), BalancesIn(response), AnchorOf(response, u)).Accepted?
  {
    CommitmentOnlyExact(res, [], u);
  }

  /** The latest top-layer commitment. */
  lemma {:induction false} TopOnlyAccepted(response: Response, u: Updates, res: CommitmentMap)
    requires |u| >= 2 && response.TopOnly? && response.current == Current(u) && IsTopOf(response.top, u)
    ensures Outcome(res, ProofsIn(response), BalancesIn(response), AnchorOf(response, u)).Accepted?
  {
    CommitmentOnlyExact(res, [response.top], u);
  }

  /** A range of versions, of which the client takes the range that the reply lists: accepted within the account's
      current top-layer batch, if it is not all of it. */
  lemma {:induction false} FullRangeAccepted(response: Response, u: Updates, first: nat, last: nat, res: CommitmentMap,
                                             sv: nat, ev: nat, res': CommitmentMap)
    requires WithinCurrent(u, first, last) && IsFullRange(response, first, last, res, true, u)
    requires Spans(BalancesIn(response), sv, ev) && RequiredFor(res', sv, ev)
    ensures sv == first && ev == last
    ensures Outcome(res', ProofsIn(response), BalancesIn(response), AnchorOf(response, u)).Accepted?
  {
    hide HonestProofs, WithinCurrent, Outcome, Spans, RequiredFor, BoundThroughout;
    WithinOrder(u, first, last);
    HistoryInOrder(u, first, last);
    SpansInOrder(response.balances, first, last, sv, ev);
    HonestReplyAccepted(response.proofs, res, res', first, last, u);
  }

  lemma {:induction false} WithinOrder(u: Updates, first: nat, last: nat)
    requires WithinCurrent(u, first, last)
    ensures first <= last < |u| - 1
  {
  }

  lemma {:induction false} HistoryBounded(u: Updates, first: nat, last: nat)
    requires first <= last < |u| - 1
    ensures forall b :: b in History(u, first, last) ==> b.current.version <= last
  {
    var h := History(u, first, last);
    forall b | b in h ensures b.current.version <= last {
      var i :| 0 <= i < |h| && h[i] == b;
      assert h[i] == Superseded(u, first + i);
    }
  }

  /** Query and verification together, for an account in the store with the given entry in the state trie: every reply is
      accepted, if its versions are within the account's current top-layer batch. */
  method QueryAndVerify(start: nat, end: nat, r: Records, entry: Hash, fromLeaves: bool, ghost u: Updates)
    returns (response: Response, verdict: Verdict)
    requires Increasing(u) && Saved(r, u) && |u| <= MAX_UINT64 && entry == CommitmentAfter(u)
    ensures response.CurrentOnly? || response.TopOnly? ==> verdict == Accepted
    ensures response.FullRange? && WithinCurrent(u, response.first, response.last) && (fromLeaves ==> FewVersions(u)) ==>
              verdict == Accepted
  {
    hide WithinCurrent, Outcome, IsTopOf, Spans, RequiredFor, ExactVersions, ValidAtBoth, HonestProofs, Describes, CommitmentAfter;
    ghost var first, last, res;
    response, first, last, res := GenerateProof(start, end, r, fromLeaves, u);
    if !(response.CurrentOnly? || response.TopOnly? || response.FullRange?) {
      return response, Rejected;
    }
    if response.FullRange? {
      HistoryBounded(u, first, last);
    }
    ghost var sv, ev, res';
    var anchor := Anchor(true, true, Found(entry), Some(response.current));
    verdict, sv, ev, res' := VerifyResponse(ProofsIn(response), BalancesIn(response), anchor);
    if response.CurrentOnly? {
      CurrentOnlyAccepted(response, u, res');
    } else if response.TopOnly? {
      TopOnlyAccepted(response, u, res');
    } else if WithinCurrent(u, first, last) && (fromLeaves ==> FewVersions(u)) {
      FullRangeAccepted(response, u, first, last, res, sv, ev, res');
    }
  }
}
