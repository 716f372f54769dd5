/** From blocks to versions (proof.go, BinarySearchVersionByBlockNumber and BlockRangeToVersionRange;
    server.go, generateProof). */
module VersionSearch {
  import opened Primitives
  import opened Layers
  import opened SegmentTree
  import opened Accounts
  import opened AccountCache
  import opened RangeCover
  import opened Dependencies
  import opened RequiredCommitments
  import opened StoredTrees
  import opened ProverTrees
  import opened RangeProofs
  import opened ReplyShape
  import opened VerifierTrees
  import opened Verification
  import opened Verifier
  import opened EndToEnd

  /** Each update is at a later block than the one before. */
  ghost predicate Increasing(u: Updates) {
    forall i, j :: 0 <= i < j < |u| ==> u[i].block < u[j].block
  }

  ghost predicate HoldsHistory(r: Records, u: Updates) {
    r.history == map v: nat | v < |u| - 1 :: Superseded(u, v)
  }

  /** Version v was the balance at a block. */
  predicate ValidAt(u: Updates, v: nat, block: nat)
    requires v < |u| - 1
  {
    Superseded(u, v).current.startBlock <= block <= Superseded(u, v).endBlock
  }

  /** Version v was the balance at some block of a range. */
  predicate Meets(u: Updates, v: nat, start: nat, end: nat)
    requires v < |u| - 1
  {
    Superseded(u, v).current.startBlock <= end && start <= Superseded(u, v).endBlock
  }

  lemma {:induction false} Interval(u: Updates, v: nat)
    requires Increasing(u) && v < |u| - 1
    ensures Superseded(u, v).current.startBlock == u[v].block && Superseded(u, v).endBlock == u[v + 1].block - 1
  {
    assert u[v].block < u[v + 1].block;
  }

  /** At every block from the first update to the current one, exactly one version is valid; at
      other blocks none is. */
  lemma {:induction false} ValidVersion(u: Updates, block: nat, n: nat) returns (v: nat)
    requires Increasing(u) && n < |u| && u[0].block <= block < u[n].block
    ensures v < n && ValidAt(u, v, block)
  {
    if block >= u[n - 1].block {
      v := n - 1;
      Interval(u, v);
    } else {
      v := ValidVersion(u, block, n - 1);
    }
  }

  lemma {:induction false} OneVersion(u: Updates, v: nat, v': nat, block: nat)
    requires Increasing(u) && v < |u| - 1 && v' < |u| - 1 && ValidAt(u, v, block) && ValidAt(u, v', block)
    ensures v == v'
  {
    Interval(u, v);
    Interval(u, v');
  }

  /** The version intervals tile the blocks from the first update up to the current balance. */
  lemma {:induction false} Tiling(u: Updates, block: nat)
    requires Increasing(u)
    ensures u[0].block <= block < Current(u).startBlock <==> exists v: nat :: v < |u| - 1 && ValidAt(u, v, block)
    ensures forall v: nat, v': nat :: v < |u| - 1 && v' < |u| - 1 && ValidAt(u, v, block) && ValidAt(u, v', block) ==> v == v'
  {
    if u[0].block <= block < Current(u).startBlock {
      var v := ValidVersion(u, block, |u| - 1);
    }
    forall v: nat | v < |u| - 1 && ValidAt(u, v, block) ensures u[0].block <= block < Current(u).startBlock {
      Interval(u, v);
    }
    forall v: nat, v': nat | v < |u| - 1 && v' < |u| - 1 && ValidAt(u, v, block) && ValidAt(u, v', block) ensures v == v' {
      OneVersion(u, v, v', block);
    }
  }

  lemma {:induction false} SearchHalves(u: Updates, m: nat, block: nat)
    requires Increasing(u) && m < |u| - 1 && !ValidAt(u, m, block)
    ensures forall v: nat :: v < |u| - 1 && ValidAt(u, v, block) ==> if block < Superseded(u, m).current.startBlock then v < m else m < v
  {
    Interval(u, m);
    forall v: nat | v < |u| - 1 && ValidAt(u, v, block)
      ensures if block < Superseded(u, m).current.startBlock then v < m else m < v
    {
      Interval(u, v);
    }
  }

  method BinarySearchVersionByBlockNumber(block: nat, searchStart: nat, searchEnd: nat, r: Records, ghost u: Updates)
    returns (found: Option<nat>)
    requires HoldsHistory(r, u) && Increasing(u) && searchEnd < |u| - 1
    ensures found.Some? ==> searchStart <= found.value <= searchEnd && ValidAt(u, found.value, block)
    ensures found.None? ==> forall v :: searchStart <= v <= searchEnd ==> !ValidAt(u, v, block)
  {
    var L, R := searchStart, searchEnd;
    while L <= R
      invariant searchStart <= L && R <= searchEnd
      invariant forall v :: searchStart <= v <= searchEnd && ValidAt(u, v, block) ==> L <= v <= R
      decreases R + 1 - L
    {
      var m := (L + R) / 2;
      var hb := r.history[m];
      if hb.current.startBlock <= block <= hb.endBlock {
        return Some(m);
      }
      SearchHalves(u, m, block);
      if block < hb.current.startBlock {
        if m == 0 {
          return None;
        }
        R := m - 1;
      } else {
        L := m + 1;
      }
    }
    found := None;
  }

  // ----- ranges

  datatype RangeAnswer = Versions(first: nat, last: nat) | AccountNotFound | OutOfBounds | VersionNotFound

  /** The versions are exactly those that were valid at some block of the range. */
  ghost predicate ExactVersions(u: Updates, first: nat, last: nat, start: nat, end: nat) {
    && first <= last < |u| - 1
    && forall v: nat :: v < |u| - 1 ==> (first <= v <= last <==> Meets(u, v, start, end))
  }

  lemma {:induction false} EndVersion(u: Updates, last: nat, end: nat)
    requires Increasing(u) && last < |u| - 1
    requires if end >= Current(u).startBlock then last == |u| - 2 else ValidAt(u, last, end)
    ensures forall v: nat :: v < |u| - 1 ==> (v <= last <==> Superseded(u, v).current.startBlock <= end)
  {
    Interval(u, last);
    forall v: nat | v < |u| - 1 ensures v <= last <==> Superseded(u, v).current.startBlock <= end {
      Interval(u, v);
    }
  }

  lemma {:induction false} StartVersion(u: Updates, first: nat, start: nat)
    requires Increasing(u) && first < |u| - 1
    requires if start <= u[0].block then first == 0 else ValidAt(u, first, start)
    ensures forall v: nat :: v < |u| - 1 ==> (first <= v <==> start <= Superseded(u, v).endBlock)
  {
    Interval(u, first);
    forall v: nat | v < |u| - 1 ensures first <= v <==> start <= Superseded(u, v).endBlock {
      Interval(u, v);
    }
  }

  /** The two ends of the search give exactly the versions of the range. */
  lemma {:induction false} EndsExact(u: Updates, first: nat, last: nat, start: nat, end: nat)
    requires Increasing(u) && first <= last < |u| - 1
    requires if end >= Current(u).startBlock then last == |u| - 2 else ValidAt(u, last, end)
    requires if start <= u[0].block then first == 0 else ValidAt(u, first, start)
    ensures ExactVersions(u, first, last, start, end)
  {
    EndVersion(u, last, end);
    StartVersion(u, first, start);
  }

  /** A block of the history that is not after `end` has its version among the first `last`. */
  lemma {:induction false} StartFound(u: Updates, last: nat, start: nat, end: nat)
    requires Increasing(u) && last < |u| - 1 && u[0].block <= start <= end && start < Current(u).startBlock
    requires if end >= Current(u).startBlock then last == |u| - 2 else ValidAt(u, last, end)
    ensures exists v :: 0 <= v <= last && ValidAt(u, v, start)
  {
    var v := ValidVersion(u, start, |u| - 1);
    EndVersion(u, last, end);
  }

  /** The last version of a range, once it is known that the range does not end before the history. */
  method FindLast(end: nat, r: Records, ghost u: Updates) returns (last: Option<nat>)
    requires HoldsHistory(r, u) && Increasing(u) && r.current == Some(Current(u)) && |u| >= 2 && u[0].block <= end
    ensures last.Some? && last.value < |u| - 1
    ensures if end >= Current(u).startBlock then last.value == |u| - 2 else ValidAt(u, last.value, end)
  {
    var current := r.current.value;
    if end >= current.startBlock {
      last := Some(current.version - 1);
    } else {
      ghost var v := ValidVersion(u, end, |u| - 1);
      last := BinarySearchVersionByBlockNumber(end, 0, current.version - 1, r, u);
    }
  }

  predicate ValidAtBoth(u: Updates, v: nat, start: nat, end: nat) {
    v < |u| - 1 && ValidAt(u, v, start) && ValidAt(u, v, end)
  }

  /** When a range ends before it starts, a version up to that of its end can be valid at its start only
      if it is the one of its end. */
  lemma {:induction false} BackwardRange(u: Updates, last: nat, start: nat, end: nat)
    requires Increasing(u) && last < |u| - 1 && ValidAt(u, last, end) && end < start
    ensures forall v: nat :: v <= last && ValidAt(u, v, start) ==> v == last
    ensures forall v: nat :: ValidAtBoth(u, v, start, end) ==> v == last
  {
    Interval(u, last);
    forall v: nat | v < |u| - 1 ensures v <= last && ValidAt(u, v, start) ==> v == last
      ensures ValidAtBoth(u, v, start, end) ==> v == last
    {
      Interval(u, v);
    }
  }

  /** The versions of a block range (BlockRangeToVersionRange). */
  method BlockRangeToVersionRange(start: nat, end: nat, r: Records, ghost u: Updates) returns (answer: RangeAnswer)
    requires HoldsHistory(r, u) && Increasing(u)
    requires r.current == None || r.current == Some(Current(u))
    ensures r.current == None || |u| == 1 ==> answer == AccountNotFound
    ensures r.current.Some? && |u| >= 2 && start <= end ==>
              if end < u[0].block || start >= Current(u).startBlock then answer == OutOfBounds
              else answer.Versions? && ExactVersions(u, answer.first, answer.last, start, end)
    ensures r.current.Some? && |u| >= 2 && start > end ==>
              if end < u[0].block || start >= Current(u).startBlock then answer == OutOfBounds
              else if answer.Versions? then answer.first == answer.last && ValidAtBoth(u, answer.first, start, end)
              else answer == VersionNotFound && forall v: nat :: !ValidAtBoth(u, v, start, end)
  {
    if r.current == None {
      return AccountNotFound;
    }
    var current := r.current.value;
    if current.version == 0 {
      return AccountNotFound;
    }
    var firstStart := r.history[0].current.startBlock;
    Interval(u, 0);
    if end < firstStart {
      return OutOfBounds;
    }
    var last := FindLast(end, r, u);
    if start < firstStart {
      EndsExact(u, 0, last.value, start, end);
      return Versions(0, last.value);
    }
    if start >= current.startBlock {
      return OutOfBounds;
    }
    var first := BinarySearchVersionByBlockNumber(start, 0, last.value, r, u);
    if start <= end {
      StartFound(u, last.value, start, end);
    }
    if start > end {
      BackwardRange(u, last.value, start, end);
    }
    if first == None {
      return VersionNotFound;
    }
    if start <= end {
      FirstIsStart(u, first.value, start);
      EndsExact(u, first.value, last.value, start, end);
    }
    answer := Versions(first.value, last.value);
  }

  lemma {:induction false} FirstIsStart(u: Updates, first: nat, start: nat)
    requires Increasing(u) && first < |u| - 1 && ValidAt(u, first, start)
    ensures start <= u[0].block ==> first == 0
  {
    Interval(u, first);
  }

  // ----- the server

  /** The server's replies: an error, the current balance alone, the top-layer commitment alone, or
      proofs for a range of versions with their balances. */
  datatype Response =
    | NotFound | OutOfRange | Internal | Stopped
    | CurrentOnly(current: CurrentBalance)
    | TopOnly(current: CurrentBalance, top: RangeProof)
    | FullRange(current: CurrentBalance, first: nat, last: nat, proofs: seq<RangeProof>, balances: seq<HistoricalBalance>)

  /** The latest top-layer commitment (GetLatestTopLayerCommitmentAsRangeProof): it opens nothing. */
  method LatestTop(r: Records, ghost u: Updates) returns (top: RangeProof)
    requires Saved(r, u) && |u| >= 2
    ensures IsTopOf(top, u)
  {
    var idx := (r.current.value.version - 1) / BatchSize(MAX_LAYER);
    StoredBatch(r, u, (MAX_LAYER, idx));
    top := RangeProof(idx, MAX_LAYER, r.commitments[(MAX_LAYER, idx)], Opening(ZERO, {}), None, []);
  }

  /** The proof is that of the batch of the account's last superseded balance, with the commitment alone. */
  predicate IsTopOf(top: RangeProof, u: Updates)
    requires |u| >= 2
  {
    && top.layer == 4 && top.idx == (|u| - 2) / BatchSize(4)
    && top.commitment == Commit(FullTree(4, (|u| - 2) / BatchSize(4), LeafHashes(u)))
    && top.range == None && top.dependents == []
  }

  /** A full-range reply: the account's current balance, and the proofs and the balances of the versions. */
  ghost predicate IsFullRange(response: Response, first: nat, last: nat, res: CommitmentMap, found: bool, u: Updates)
    requires first <= last < |u| - 1
  {
    && response.FullRange? && response.current == Current(u) && response.first == first && response.last == last
    && response.balances == History(u, first, last)
    && (found ==> HonestProofs(response.proofs, res, first, last, u) && Describes(response.proofs, first, last))
  }

  /** The proofs and balances of a range of versions; the path that rebuilds the trees from leaves may stop the
      program, when it does not find a commitment. */
  method FullRangeProof(r: Records, first: nat, last: nat, fromLeaves: bool, ghost u: Updates)
    returns (response: Response, ghost res: CommitmentMap)
    requires Saved(r, u) && first <= last < |u| - 1
    ensures RequiredFor(res, first, last)
    ensures response.Stopped? || IsFullRange(response, first, last, res, !fromLeaves || RangeFound(res, u), u)
    ensures response.Stopped? ==> fromLeaves && !RangeFound(res, u)
    ensures FewVersions(u) && fromLeaves && !RangeFound(res, u) ==> response.Stopped?
  {
    var ok, proofs, balances;
    ok, proofs, balances, res := GetProofRange(r, first, last, fromLeaves, u);
    if !fromLeaves || RangeFound(res, u) {
      HonestDescribes(proofs, res, first, last, u);
    }
    response := if ok then FullRange(r.current.value, first, last, proofs, balances) else Stopped;
  }

  /** The reply for the versions first to last: in full, or a stop of the leaf-rebuilding path, which for fewer than
      about 2^64 versions happens exactly when a commitment that it looks for does not exist. */
  ghost predicate RangeReply(response: Response, first: nat, last: nat, res: CommitmentMap, fromLeaves: bool, u: Updates)
    requires first <= last < |u| - 1
  {
    && RequiredFor(res, first, last)
    && (response.Stopped? || IsFullRange(response, first, last, res, !fromLeaves || RangeFound(res, u), u))
    && (response.Stopped? ==> fromLeaves && !RangeFound(res, u))
    && (FewVersions(u) && fromLeaves && !RangeFound(res, u) ==> response.Stopped?)
  }

  /** Route a query for the balances of a block range (generateProof). */
  method GenerateProof(start: nat, end: nat, r: Records, fromLeaves: bool, ghost u: Updates)
    returns (response: Response, ghost first: nat, ghost last: nat, ghost res: CommitmentMap)
    requires Increasing(u) && (r.current == None || Saved(r, u))
    ensures response.NotFound? <==> r.current == None
    ensures r.current.Some? && |u| == 1 ==>
              response == if Current(u).startBlock <= end then CurrentOnly(Current(u)) else OutOfRange
    ensures r.current.Some? && |u| >= 2 ==>
              if Current(u).startBlock <= start then response.TopOnly? && response.current == Current(u) && IsTopOf(response.top, u)
              else if end < u[0].block then response.OutOfRange?
              else if response.Internal? then end < start && forall v: nat :: !ValidAtBoth(u, v, start, end)
              else
                && first <= last < |u| - 1 && RangeReply(response, first, last, res, fromLeaves, u)
                && if start <= end then ExactVersions(u, first, last, start, end) else first == last && ValidAtBoth(u, first, start, end)
  {
    first, last, res := 0, 0, map[];
    if r.current == None {
      return NotFound, first, last, res;
    }
    var current := r.current.value;
    if current.version == 0 {
      response := if current.startBlock <= end then CurrentOnly(current) else OutOfRange;
      return;
    }
    if current.startBlock <= start {
      var top := LatestTop(r, u);
      return TopOnly(current, top), first, last, res;
    }
    var firstStart := r.history[0].current.startBlock;
    Interval(u, 0);
    if end < firstStart {
      return OutOfRange, first, last, res;
    }
    var to := FindLast(end, r, u);
    var from := FindFirst(start, end, to.value, firstStart, r, u);
    if from == None {
      return Internal, first, last, res;
    }
    first, last := from.value, to.value;
    response, res := FullRangeProof(r, from.value, to.value, fromLeaves, u);
  }

  method FindFirst(start: nat, end: nat, last: nat, firstStart: nat, r: Records, ghost u: Updates) returns (first: Option<nat>)
    requires HoldsHistory(r, u) && Increasing(u) && last < |u| - 1 && firstStart == u[0].block
    requires if end >= Current(u).startBlock then last == |u| - 2 else ValidAt(u, last, end)
    ensures first.Some? ==> first.value <= last
    ensures start <= end && start < Current(u).startBlock ==> first.Some? && ExactVersions(u, first.value, last, start, end)
    ensures end < start < Current(u).startBlock && firstStart <= end ==>
              if first.Some? then first.value == last && ValidAtBoth(u, last, start, end) else forall v: nat :: !ValidAtBoth(u, v, start, end)
  {
    if end < start < Current(u).startBlock {
      BackwardRange(u, last, start, end);
    }
    if start <= firstStart {
      first := Some(0);
    } else {
      first := BinarySearchVersionByBlockNumber(start, 0, last, r, u);
    }
    if start <= end && start < Current(u).startBlock {
      if start > firstStart {
        StartFound(u, last, start, end);
      }
      EndsExact(u, first.value, last, start, end);
    }
  }

  /** The server and BlockRangeToVersionRange give the same versions: a range has only one exact
      answer. */
  lemma {:induction false} SameVersions(u: Updates, first: nat, last: nat, first': nat, last': nat, start: nat, end: nat)
    requires ExactVersions(u, first, last, start, end) && ExactVersions(u, first', last', start, end)
    ensures first == first' && last == last'
  {
    assert Meets(u, first, start, end) && Meets(u, last, start, end);
    assert Meets(u, first', start, end) && Meets(u, last', start, end);
  }
}
