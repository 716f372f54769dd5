/** Updating an account with several balances at once (types.go, UpdateBulk). */
module BulkUpdates {
  import opened Primitives
  import opened Heap
  import opened Layers
  import opened SegmentTree
  import opened Descent
  import opened Accounts

  /** An account object with the records kept for the account. */
  datatype Kept = Kept(state: AccountState, records: Records)

  function UpdateKept(p: Kept, x: BalanceUpdate): Kept {
    Kept(UpdateAccount(p.state, x), UpdateRecords(p.state, p.records, x))
  }

  /** One update for each entry, in order. */
  function UpdateEach(p: Kept, entries: seq<BalanceUpdate>): Kept
    decreases |entries|
  {
    if entries == [] then p else UpdateEach(UpdateKept(p, entries[0]), entries[1..])
  }

  // ----- one round of a bulk

  /** The number of versions up to the end of the layer-1 batch. */
  function ToBatchEnd(version: nat): (n: nat)
    ensures 0 < n <= L1
  {
    L1 - version % L1
  }

  /** A round ends with the entries or with a layer-1 batch. */
  function RoundLength(version: nat, n: nat): (k: nat)
    ensures k <= n && (n > 0 ==> k > 0)
  {
    if n < ToBatchEnd(version) then n else ToBatchEnd(version)
  }

  lemma {:induction false} BatchEnds(version: nat, j: nat)
    requires 0 < j <= ToBatchEnd(version)
    ensures (version + j) % L1 == 0 <==> j == ToBatchEnd(version)
  {
  }

  /** Every entry of a round supersedes the balance that was current before the round. */
  function SupersededBy(first: CurrentBalance, x: BalanceUpdate): HistoricalBalance {
    HistoricalBalance(first, Predecessor(x.block))
  }

  /** The leaves of a round all go to the version that was current before it. */
  function RoundLayers(s: LayerStack, first: CurrentBalance, entries: seq<BalanceUpdate>): LayerStack {
    if entries == [] then s
    else
      var last := |entries| - 1;
      AddLeaf(RoundLayers(s, first, entries[..last]), first.version, BalanceHash(SupersededBy(first, entries[last])))
  }

  function RoundHashes(first: CurrentBalance, entries: seq<BalanceUpdate>): (hashes: seq<Hash>)
    ensures |hashes| == |entries|
  {
    seq(|entries|, i requires 0 <= i < |entries| => BalanceHash(SupersededBy(first, entries[i])))
  }

  lemma {:induction false} LayersStep(s: LayerStack, first: CurrentBalance, entries: seq<BalanceUpdate>, i: nat)
    requires i < |entries|
    ensures RoundLayers(s, first, entries[..i + 1]) == AddLeaf(RoundLayers(s, first, entries[..i]), first.version, RoundHashes(first, entries)[i])
  {
    assert entries[..i + 1][..i] == entries[..i];
  }

  lemma {:induction false} RoundStep(r: Records, first: CurrentBalance, entries: seq<BalanceUpdate>, i: nat)
    requires i < |entries|
    ensures var hb := SupersededBy(first, entries[i]);
            && RoundHashes(first, entries[..i + 1]) == RoundHashes(first, entries[..i]) + [BalanceHash(hb)]
            && RoundHistory(r, first, entries[..i + 1]) ==
               RoundHistory(r, first, entries[..i]).(history := RoundHistory(r, first, entries[..i]).history[first.version := hb])
            && RoundCurrent(first, entries[..i + 1]) == CurrentBalance(first.version + i + 1, entries[i].balance, entries[i].block)
  {
    assert entries[..i + 1][..i] == entries[..i];
  }

  function RoundHistory(r: Records, first: CurrentBalance, entries: seq<BalanceUpdate>): Records {
    if entries == [] then r
    else r.(history := r.history[first.version := SupersededBy(first, entries[|entries| - 1])])
  }

  function RoundCurrent(first: CurrentBalance, entries: seq<BalanceUpdate>): CurrentBalance {
    if entries == [] then first
    else
      var last := entries[|entries| - 1];
      CurrentBalance(first.version + |entries|, last.balance, last.block)
  }

  function Round(p: Kept, first: CurrentBalance, entries: seq<BalanceUpdate>): Kept {
    var current := RoundCurrent(first, entries);
    var layers := RoundLayers(p.state.layers, first, entries);
    var r := RoundHistory(p.records, first, entries);
    Kept(AccountState(Some(current), layers), if current.version % L1 == 0 then StoreBatches(r, current.version, layers) else r)
  }

  /** The whole bulk, round by round; without a current balance the first entry is an update of its own. */
  function Bulk(p: Kept, entries: seq<BalanceUpdate>): Kept
    decreases |entries|
  {
    if entries == [] then p
    else if p.state.current == None then Bulk(UpdateKept(p, entries[0]), entries[1..])
    else
      var first := p.state.current.value;
      var k := RoundLength(first.version, |entries|);
      Bulk(Round(p, first, entries[..k]), entries[k..])
  }

  // ----- when a bulk does what its updates do

  /** No round of the bulk has more than one entry. */
  predicate OneByOne(current: Option<CurrentBalance>, n: nat) {
    n <= 1 || (n == 2 && (current == None || (current.value.version + 1) % L1 == 0))
  }

  lemma {:induction false} RoundOfOne(p: Kept, first: CurrentBalance, x: BalanceUpdate)
    requires p.state.current == Some(first)
    ensures Round(p, first, [x]) == UpdateKept(p, x)
  {
    hide AddLeaf, StoreBatches;
    assert [x][..0] == [];
    assert RoundLayers(p.state.layers, first, []) == p.state.layers;
  }

  lemma {:induction false} BulkUnfold(p: Kept, first: CurrentBalance, entries: seq<BalanceUpdate>)
    requires p.state.current == Some(first) && entries != [] && RoundLength(first.version, |entries|) == 1
    ensures Bulk(p, entries) == Bulk(UpdateKept(p, entries[0]), entries[1..])
  {
    hide Round, UpdateKept;
    assert entries[..1] == [entries[0]];
    RoundOfOne(p, first, entries[0]);
  }

  lemma {:induction false} OneByOneIsEach(p: Kept, entries: seq<BalanceUpdate>)
    requires OneByOne(p.state.current, |entries|)
    ensures Bulk(p, entries) == UpdateEach(p, entries)
    decreases |entries|
  {
    hide Round, UpdateKept;
    if entries != [] {
      var next := UpdateKept(p, entries[0]);
      UpdateEffect(p, entries[0]);
      if p.state.current.Some? {
        BulkUnfold(p, p.state.current.value, entries);
      }
      OneByOneIsEach(next, entries[1..]);
    }
  }

  // ----- when it does not

  lemma {:induction false} RoundEffect(p: Kept, first: CurrentBalance, entries: seq<BalanceUpdate>)
    requires entries != []
    ensures Round(p, first, entries).state.current == Some(RoundCurrent(first, entries))
    ensures Round(p, first, entries).records.history.Keys == p.records.history.Keys + {first.version}
  {
  }

  /** A version that a bulk has passed by gets no history entry any more. */
  lemma {:induction false} PassedBy(p: Kept, entries: seq<BalanceUpdate>, v: nat)
    requires p.state.current.Some? && v < p.state.current.value.version && v !in p.records.history
    ensures v !in Bulk(p, entries).records.history
    decreases |entries|
  {
    hide Round;
    if entries != [] {
      var first := p.state.current.value;
      var k := RoundLength(first.version, |entries|);
      RoundEffect(p, first, entries[..k]);
      PassedBy(Round(p, first, entries[..k]), entries[k..], v);
    }
  }

  lemma {:induction false} UpdateEffect(p: Kept, x: BalanceUpdate)
    ensures UpdateKept(p, x).state.current.Some?
    ensures p.state.current == None ==>
              UpdateKept(p, x).state.current.value.version == 0 && UpdateKept(p, x).records == p.records
    ensures p.state.current.Some? ==>
              && UpdateKept(p, x).state.current.value.version == p.state.current.value.version + 1
              && UpdateKept(p, x).records.history.Keys == p.records.history.Keys + {p.state.current.value.version}
  {
  }

  /** Single updates give every version up to the current one a history entry. */
  lemma {:induction false} EachKeeps(p: Kept, entries: seq<BalanceUpdate>, v: nat)
    requires p.state.current.Some?
    requires v in p.records.history || p.state.current.value.version <= v < p.state.current.value.version + |entries|
    ensures v in UpdateEach(p, entries).records.history
    decreases |entries|
  {
    hide UpdateKept;
    if entries != [] {
      UpdateEffect(p, entries[0]);
      EachKeeps(UpdateKept(p, entries[0]), entries[1..], v);
    }
  }

  /** The history holds superseded versions only. */
  predicate HistoryBelow(p: Kept) {
    forall v :: v in p.records.history ==> p.state.current.Some? && v < p.state.current.value.version
  }

  lemma {:induction false} LongRoundDiffers(p: Kept, entries: seq<BalanceUpdate>)
    requires p.state.current.Some? && HistoryBelow(p) && RoundLength(p.state.current.value.version, |entries|) >= 2
    ensures Bulk(p, entries).records.history != UpdateEach(p, entries).records.history
  {
    hide Round, UpdateKept;
    var first := p.state.current.value;
    var k := RoundLength(first.version, |entries|);
    var v := first.version + 1;
    RoundEffect(p, first, entries[..k]);
    PassedBy(Round(p, first, entries[..k]), entries[k..], v);
    EachKeeps(p, entries, v);
  }

  lemma {:induction false} MoreDiffers(p: Kept, entries: seq<BalanceUpdate>)
    requires HistoryBelow(p) && !OneByOne(p.state.current, |entries|)
    ensures Bulk(p, entries).records.history != UpdateEach(p, entries).records.history
    decreases |entries|
  {
    hide Round, UpdateKept;
    if p.state.current.Some? && RoundLength(p.state.current.value.version, |entries|) >= 2 {
      LongRoundDiffers(p, entries);
    } else {
      if p.state.current.Some? {
        BulkUnfold(p, p.state.current.value, entries);
      }
      UpdateEffect(p, entries[0]);
      MoreDiffers(UpdateKept(p, entries[0]), entries[1..]);
    }
  }

  // ----- what every bulk does

  function LastCurrent(current: Option<CurrentBalance>, entries: seq<BalanceUpdate>): CurrentBalance
    requires entries != []
  {
    var last := entries[|entries| - 1];
    CurrentBalance(if current == None then |entries| - 1 else current.value.version + |entries|, last.balance, last.block)
  }

  lemma {:induction false} EachCurrent(p: Kept, entries: seq<BalanceUpdate>)
    requires entries != []
    ensures UpdateEach(p, entries).state.current == Some(LastCurrent(p.state.current, entries))
    decreases |entries|
  {
    hide UpdateRecords, AddLeaf;
    if |entries| > 1 {
      EachCurrent(UpdateKept(p, entries[0]), entries[1..]);
    } else {
      assert UpdateEach(UpdateKept(p, entries[0]), entries[1..]) == UpdateKept(p, entries[0]);
    }
  }

  /** The current balance after a bulk is that after one update for each entry. */
  lemma {:induction false} BulkCurrent(p: Kept, entries: seq<BalanceUpdate>)
    requires entries != []
    ensures Bulk(p, entries).state.current == UpdateEach(p, entries).state.current == Some(LastCurrent(p.state.current, entries))
    decreases |entries|
  {
    hide UpdateRecords, AddLeaf, RoundLayers, RoundHistory, StoreBatches, UpdateEach;
    EachCurrent(p, entries);
    if p.state.current == None {
      if |entries| > 1 {
        BulkCurrent(UpdateKept(p, entries[0]), entries[1..]);
        EachCurrent(UpdateKept(p, entries[0]), entries[1..]);
      }
    } else {
      var first := p.state.current.value;
      var k := RoundLength(first.version, |entries|);
      var next := Round(p, first, entries[..k]);
      if k < |entries| {
        BulkCurrent(next, entries[k..]);
      } else {
        assert entries[..k] == entries && Bulk(next, entries[k..]) == next;
      }
    }
  }

  /** The history entry of a version that a bulk has passed by stays as it is. */
  lemma {:induction false} PassedByKeeps(p: Kept, entries: seq<BalanceUpdate>, v: nat)
    requires p.state.current.Some? && v < p.state.current.value.version && v in p.records.history
    ensures v in Bulk(p, entries).records.history && Bulk(p, entries).records.history[v] == p.records.history[v]
    decreases |entries|
  {
    hide RoundLayers;
    if entries != [] {
      var first := p.state.current.value;
      var k := RoundLength(first.version, |entries|);
      PassedByKeeps(Round(p, first, entries[..k]), entries[k..], v);
    }
  }

  /** The superseded balance gets its history entry with the block before the last entry of the round, and the leaf of
      its version in the trees of the round is the hash of that entry. */
  lemma {:induction false} RoundOverwrites(p: Kept, entries: seq<BalanceUpdate>)
    requires p.state.current.Some? && entries != []
    ensures var first := p.state.current.value;
            var k := RoundLength(first.version, |entries|);
            var hb := HistoricalBalance(first, Predecessor(entries[k - 1].block));
            && first.version in Bulk(p, entries).records.history && Bulk(p, entries).records.history[first.version] == hb
            && Round(p, first, entries[..k]).state.layers[0].tree[2047 + first.version % 2048] == Some(BalanceHash(hb))
  {
    hide KeyedCommitments, KeyedRoots, AddLeaf;
    var first := p.state.current.value;
    var k := RoundLength(first.version, |entries|);
    var next := Round(p, first, entries[..k]);
    assert Bulk(p, entries) == Bulk(next, entries[k..]);
    PassedByKeeps(next, entries[k..], first.version);
    LeafStored(RoundLayers(p.state.layers, first, entries[..k][..k - 1]), first.version, BalanceHash(SupersededBy(first, entries[k - 1])));
  }

  // ----- the commitment of a round

  lemma {:induction false} AddTermsKeeps(c: Point, t: HashVector, nodes: seq<nat>, x: Term)
    requires Filled(t, nodes) && c.minus == multiset{}
    ensures AddTerms(c, t, nodes).minus == multiset{} && AddTerms(c, t, nodes).plus[x] >= c.plus[x]
    ensures nodes != [] && x == Term(nodes[0], t[nodes[0]].value) ==> x in AddTerms(c, t, nodes).plus
    decreases |nodes|
  {
    if nodes != [] {
      var one := Scaled(nodes[0], t[nodes[0]].value);
      AddPositive(c, one);
      AddTermsKeeps(Add(c, one), t, nodes[1..], x);
    }
  }

  lemma {:induction false} InsertTerms(s: Layer, idx: nat, h: Hash, x: Term)
    requires |s.tree| == TREE_SIZE && idx + 1 < TREE_SIZE && s.commit.minus == multiset{}
    ensures var r := InsertLeaf(s, idx, Some(h));
            r.commit.minus == multiset{} && r.commit.plus[x] >= s.commit.plus[x] && (x == Term(idx, h) ==> x in r.commit.plus)
  {
    var t := s.tree[idx := Some(h)];
    ClimbFilled(t, idx);
    ClimbedBelow(t, idx);
    ClimbFixed(t, idx, idx);
    CommitWrittenAgrees(s.commit, Climb(t, idx), Written(t, idx));
    AddTermsKeeps(s.commit, Climb(t, idx), Written(t, idx), x);
  }

  /** At layer 1 an insertion that starts no batch only adds terms, among them that of the new leaf. */
  lemma {:induction false} FirstLayerTerms(s: LayerStack, v: nat, h: Hash, x: Term)
    requires v % 2048 != 0 && s[0].commit.minus == multiset{}
    ensures var r := AddLeaf(s, v, h)[0].commit;
            r.minus == multiset{} && r.plus[x] >= s[0].commit.plus[x] && (x == Term(2047 + v % 2048, h) ==> x in r.plus)
  {
    hide UpdateLayers, InsertLeaf, SetSlot;
    PlaceIs(1, v);
    var (value, lower) := Handed(Reset(s, v), 1, h);
    ResetAt(s, v, 1);
    FirstOfFour(Reset(s, v), MAX_LAYER, v, h);
    InsertTerms(s[0], 2047 + v % 2048, h, x);
  }

  lemma {:induction false} FirstOfFour(s: LayerStack, layer: nat, v: nat, h: Hash)
    requires 1 <= layer <= MAX_LAYER
    ensures UpdateLayers(s, layer, v, h)[0] == InsertLeaf(s[0], 2047 + v % 2048, Some(h))
  {
    hide InsertLeaf, SetSlot;
    if layer == 1 {
      PlaceIs(1, v);
    } else {
      FirstOfFour(s, layer - 1, v, h);
    }
  }

  /** Unless the version starts a batch, the commitment of layer 1 after a round has a term for every entry of it at the
      one leaf that the round sets, while the tree has only the last one there. */
  lemma {:induction false} RoundTerms(s: LayerStack, first: CurrentBalance, entries: seq<BalanceUpdate>, i: nat)
    requires i < |entries| && first.version % 2048 != 0 && s[0].commit.minus == multiset{}
    ensures var r := RoundLayers(s, first, entries)[0];
            && r.commit.minus == multiset{}
            && Term(2047 + first.version % 2048, BalanceHash(SupersededBy(first, entries[i]))) in r.commit.plus
  {
    hide AddLeaf;
    var last := |entries| - 1;
    var x := Term(2047 + first.version % 2048, BalanceHash(SupersededBy(first, entries[i])));
    var before := RoundLayers(s, first, entries[..last]);
    if i < last {
      RoundTerms(s, first, entries[..last], i);
    } else if last > 0 {
      RoundTerms(s, first, entries[..last], 0);
    }
    FirstLayerTerms(before, first.version, BalanceHash(SupersededBy(first, entries[last])), x);
  }

  /** A bulk does what one update for each of its entries does if and only if it has at most one entry, or two of
      which the first creates the account or ends a layer-1 batch.  Otherwise a version is left without its history
      entry. */
  lemma {:induction false} BulkExact(p: Kept, entries: seq<BalanceUpdate>)
    requires HistoryBelow(p)
    ensures Bulk(p, entries) == UpdateEach(p, entries) <==> OneByOne(p.state.current, |entries|)
  {
    if OneByOne(p.state.current, |entries|) {
      OneByOneIsEach(p, entries);
    } else {
      MoreDiffers(p, entries);
    }
  }

  /** In terms of the balances the account has had. */
  lemma {:induction false} BulkAfterUpdates(p: Kept, u: Updates, entries: seq<BalanceUpdate>)
    requires StateAfter(p.state, u) && Archived(p.records, u)
    ensures Bulk(p, entries) == UpdateEach(p, entries) <==> |entries| <= 1 || (|entries| == 2 && |u| % L1 == 0)
  {
    hide Bulk, UpdateEach, LayerAfter, LeafHashes, BatchArchived;
    BulkExact(p, entries);
  }
}
