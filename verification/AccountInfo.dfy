/** The mutable account object, updated in place (types.go, AccountInfo). */
module AccountObjects {
  import opened Primitives
  import opened Heap
  import opened Layers
  import opened SegmentTree
  import opened Descent
  import opened Accounts
  import opened BulkUpdates

  type Account = nat

  /** The databases, with the records of each account. */
  class SamuraiStore {
    var records: map<Account, Records>

    constructor ()
      ensures records == map[]
    {
      records := map[];
    }

    function RecordsOf(k: Account): Records
      reads this
    {
      if k in records then records[k] else NO_RECORDS
    }
  }

  class AccountInfo {
    const account: Account
    var current: Option<CurrentBalance>
    const trees: array2<Option<Hash>>
    const commits: array<Point>
    const dirty: array<set<nat>>

    ghost predicate Valid() {
      trees.Length0 == MAX_LAYER && trees.Length1 == TREE_SIZE && commits.Length == MAX_LAYER && dirty.Length == MAX_LAYER
    }

    ghost function Row(i: nat): (t: HashVector)
      requires Valid() && i < MAX_LAYER
      reads trees
      ensures |t| == TREE_SIZE
    {
      seq(TREE_SIZE, k requires 0 <= k < TREE_SIZE && Valid() reads trees => trees[i, k])
    }

    ghost function LayerAt(i: nat): (s: Layer)
      requires Valid() && i < MAX_LAYER
      reads trees, commits, dirty
    {
      Layer(Row(i), commits[i], dirty[i])
    }

    ghost function Stack(): LayerStack
      requires Valid()
      reads trees, commits, dirty
    {
      [LayerAt(0), LayerAt(1), LayerAt(2), LayerAt(3)]
    }

    ghost function State(): AccountState
      requires Valid()
      reads this, trees, commits, dirty
    {
      AccountState(current, Stack())
    }

    /** NewAccountInfo. */
    constructor (k: Account)
      ensures Valid() && account == k && State() == NewAccount()
      ensures fresh(trees) && fresh(commits) && fresh(dirty)
    {
      account := k;
      current := None;
      trees := new Option<Hash>[MAX_LAYER, TREE_SIZE]((i, j) => None);
      commits := new Point[MAX_LAYER](_ => ZERO);
      dirty := new set<nat>[MAX_LAYER](_ => {});
      new;
      forall i: nat | i < MAX_LAYER ensures LayerAt(i) == EmptyLayer() {
        assert Row(i) == EmptyTree();
      }
    }

    /** Store a hash in a tree and mark its chunk. */
    method SetNode(i: nat, k: nat, h: Hash)
      requires Valid() && i < MAX_LAYER && k < TREE_SIZE
      modifies trees, dirty
      ensures LayerAt(i) == Layer(old(Row(i))[k := Some(h)], commits[i], old(dirty[i]) + {k / CHUNK_SIZE})
      ensures forall j: nat :: j < MAX_LAYER && j != i ==> LayerAt(j) == old(LayerAt(j))
    {
      trees[i, k] := Some(h);
      dirty[i] := dirty[i] + {k / CHUNK_SIZE};
      assert Row(i) == old(Row(i))[k := Some(h)];
      forall j: nat | j < MAX_LAYER && j != i ensures Row(j) == old(Row(j)) {
      }
    }

    /** Layers other than i are as before. */
    twostate predicate OthersSame(i: nat)
      requires Valid()
      reads trees, commits, dirty
    {
      forall j: nat :: j < MAX_LAYER && j != i ==> LayerAt(j) == old(LayerAt(j))
    }

    /** Recompute the parent of node p if both its children are present. */
    method HashParent(i: nat, p: nat) returns (h: Option<Hash>)
      requires Valid() && i < MAX_LAYER && 0 < p && p + 1 < TREE_SIZE
      modifies trees, dirty
      ensures h == Combine(old(Row(i))[2 * Parent(p) + 1], old(Row(i))[2 * Parent(p) + 2])
      ensures LayerAt(i) ==
              if h == None then old(LayerAt(i))
              else Layer(old(Row(i))[Parent(p) := h], commits[i], old(dirty[i]) + {Parent(p) / CHUNK_SIZE})
      ensures OthersSame(i)
    {
      var parent := Parent(p);
      var l, r := trees[i, 2 * parent + 1], trees[i, 2 * parent + 2];
      assert l == Row(i)[2 * parent + 1] && r == Row(i)[2 * parent + 2];
      if l == None || r == None {
        return None;
      }
      h := Some(PairHash(l.value, r.value));
      SetNode(i, parent, h.value);
    }

    /** The written nodes, each with the hash it holds. */
    ghost predicate Values(i: nat, p: nat, updated: seq<nat>, values: seq<Hash>)
      requires Valid() && i < MAX_LAYER
      reads trees
    {
      && |values| == |updated|
      && forall j :: 0 <= j < |updated| ==> p <= updated[j] < TREE_SIZE && Row(i)[updated[j]] == Some(values[j])
    }

    /** Walk from node idx to the root, recomputing ancestors while both children are present. */
    method Walk(i: nat, idx: nat, value: Hash) returns (updated: seq<nat>, values: seq<Hash>)
      requires Valid() && i < MAX_LAYER && idx + 1 < TREE_SIZE
      modifies trees, dirty
      ensures var t := old(Row(i))[idx := Some(value)];
              && updated == Written(t, idx)
              && LayerAt(i) == Layer(Climb(t, idx), commits[i], old(dirty[i]) + ChunksOf(updated))
      ensures Values(i, 0, updated, values)
      ensures updated[0] == idx && Row(i)[idx] == Some(value) && forall q :: q in updated[1..] ==> IsPair(Row(i), q)
      ensures OthersSame(i)
    {
      ghost var t, dirty0 := Row(i)[idx := Some(value)], dirty[i];
      SetNode(i, idx, value);
      updated, values := [idx], [value];
      var p: nat := idx;
      assert ChunksOf(updated) == {idx / CHUNK_SIZE};
      while p > 0
        invariant p <= idx && Walked(i, p, t, idx, dirty0, updated)
        invariant Values(i, p, updated, values)
        invariant OthersSame(i)
      {
        ghost var before := Row(i);
        var h := HashParent(i, p);
        WalkStep(before, p, updated);
        if h == None {
          break;
        }
        updated, values := updated + [Parent(p)], values + [h.value];
        p := Parent(p);
      }
      WalkPairs(t, idx, Row(i));
    }

    /** The walk stores the value and hashes upwards. */
    static lemma {:induction false} WalkPairs(t: HashVector, idx: nat, r: HashVector)
      requires idx + 1 < |t| && r == Climb(t, idx)
      ensures Written(t, idx)[0] == idx && r[idx] == t[idx] && forall q :: q in Written(t, idx)[1..] ==> IsPair(r, q)
    {
      hide Climb, IsPair;
      assert Written(t, idx)[1..] == Climbed(t, idx);
      ClimbedBelow(t, idx);
      ClimbFixed(t, idx, idx);
      forall q | q in Climbed(t, idx) ensures IsPair(r, q) {
        ClimbPairs(t, idx, q);
      }
    }

    /** From node p on, the walk is still to do what it had to do from idx on; the nodes written so
        far are marked. */
    ghost predicate Walked(i: nat, p: nat, t: HashVector, idx: nat, dirty0: set<nat>, updated: seq<nat>)
      requires Valid() && i < MAX_LAYER && idx + 1 < |t| && p + 1 < TREE_SIZE
      reads trees, dirty
    {
      && Climb(t, idx) == Climb(Row(i), p) && Written(t, idx) == updated + Climbed(Row(i), p)
      && dirty[i] == dirty0 + ChunksOf(updated)
    }

    /** Add the terms of the written nodes to a commitment (one addition per term). */
    method SumTerms(c: Point, i: nat, updated: seq<nat>, values: seq<Hash>) returns (sum: Point)
      requires Valid() && i < MAX_LAYER && Values(i, 0, updated, values)
      ensures sum == AddTerms(c, Row(i), updated)
    {
      sum := c;
      for j := 0 to |updated|
        invariant AddTerms(c, Row(i), updated) == AddTerms(sum, Row(i), updated[j..])
      {
        assert updated[j..][0] == updated[j] && updated[j..][1..] == updated[j + 1..];
        sum := Add(sum, Scaled(updated[j], values[j]));
      }
    }

    /** Store the hash of the lower layer's commitment in a slot, differencing an existing one. */
    method StoreSlot(i: nat, k: nat, h: Hash)
      requires Valid() && i < MAX_LAYER && k < TREE_SIZE
      modifies trees, commits, dirty
      ensures LayerAt(i) == SetSlot(old(LayerAt(i)), k, h)
      ensures OthersSame(i)
    {
      var existing := trees[i, k];
      assert existing == Row(i)[k];
      SetNode(i, k, h);
      var increment := if existing == None then Scaled(k, h) else ScaledDifference(k, h, existing.value);
      commits[i] := Add(commits[i], increment);
      assert Row(i) == old(Row(i))[k := Some(h)];
    }

    /** Store a value at a leaf, update its ancestors and add the written terms. */
    method StoreValue(i: nat, idx: nat, value: Hash)
      requires Valid() && i < MAX_LAYER && idx + 1 < TREE_SIZE
      modifies trees, commits, dirty
      ensures LayerAt(i) == InsertLeaf(old(LayerAt(i)), idx, Some(value))
      ensures OthersSame(i)
    {
      hide Climb, Climbed;
      var updated, values := Walk(i, idx, value);
      ghost var t := Row(i);
      if |updated| > 7 {
        var increment := SumTerms(ZERO, i, updated, values);
        commits[i] := Add(commits[i], increment);
      } else {
        commits[i] := SumTerms(commits[i], i, updated, values);
      }
      assert Row(i) == t;
    }

    /** Update the tree and commitment of one layer (UpdateLXTree). */
    method UpdateLXTree(layer: nat, idx: nat, value: Option<Hash>, lower: Point) returns (newCommit: Point)
      requires Valid() && 0 < layer <= MAX_LAYER
      requires idx + 1 < TREE_SIZE && (layer > 1 ==> L2 + idx < TREE_SIZE)
      modifies trees, commits, dirty
      ensures LayerAt(layer - 1) == UpdateLayer(old(LayerAt(layer - 1)), layer, idx, value, lower)
      ensures newCommit == LayerAt(layer - 1).commit
      ensures OthersSame(layer - 1)
    {
      var i := layer - 1;
      if layer > 1 {
        StoreSlot(i, L2 + idx, CommitmentHash(lower));
      }
      if value.Some? {
        StoreValue(i, idx, value.value);
      }
      newCommit := commits[i];
    }

    /** Clear one layer for a new batch and mark all its chunks, so that stale ones are deleted. */
    method ClearLayer(i: nat)
      requires Valid() && i < MAX_LAYER
      modifies trees, commits, dirty
      ensures LayerAt(i) == Layer(EmptyTree(), ZERO, old(dirty[i]) + ChunksBelow(CHUNKS))
      ensures OthersSame(i)
    {
      forall k | 0 <= k < TREE_SIZE {
        trees[i, k] := None;
      }
      commits[i] := ZERO;
      for c := 0 to CHUNKS
        modifies dirty
        invariant dirty[i] == old(dirty[i]) + ChunksBelow(c)
        invariant forall j :: 0 <= j < MAX_LAYER && j != i ==> dirty[j] == old(dirty[j])
      {
        dirty[i] := dirty[i] + {c};
      }
      assert Row(i) == EmptyTree();
      forall j: nat | j < MAX_LAYER && j != i ensures Row(j) == old(Row(j)) {
      }
    }

    /** Clear the layers for which version v starts a new batch. */
    method StartBatches(v: nat)
      requires Valid()
      modifies trees, commits, dirty
      ensures Stack() == Reset(old(Stack()), v)
    {
      for layer := 1 to MAX_LAYER + 1
        invariant forall j: nat :: j < MAX_LAYER ==>
                    LayerAt(j) == if j < layer - 1 then ResetLayer(old(LayerAt(j)), j + 1, v) else old(LayerAt(j))
      {
        if v % BatchSize(layer) == 0 {
          ClearLayer(layer - 1);
        }
      }
    }

    /** The root and the commitment that a layer hands to the layer above. */
    method ReadLayer(layer: nat) returns (root: Option<Hash>, commit: Point)
      requires Valid() && 0 < layer <= MAX_LAYER
      ensures root == Stack()[layer - 1].tree[0] && commit == Stack()[layer - 1].commit
    {
      root, commit := trees[layer - 1, 0], commits[layer - 1];
      assert LayerAt(layer - 1).tree[0] == trees[layer - 1, 0];
    }

    /** Add a leaf to every layer, starting new batches where due (AddLeafNode). */
    method AddLeafNode(v: nat, h: Hash)
      requires Valid()
      modifies trees, commits, dirty
      ensures Stack() == AddLeaf(old(Stack()), v, h)
      ensures forall m: Versions :: Follows(old(Stack()), v, m) ==>
                HoldsAt(Stack(), v, m[v := h]) && StackPairs(Stack()) && Stack()[0].tree[2047 + v % 2048] == Some(h)
    {
      ghost var before := Stack();
      StartBatches(v);
      ghost var s := Stack();
      var value, lower := Some(h), ZERO;
      var layer := 1;
      while layer <= MAX_LAYER
        invariant 1 <= layer <= MAX_LAYER + 1
        invariant Stack() == UpdateLayers(s, layer - 1, v, h)
        invariant layer <= MAX_LAYER ==> (value, lower) == Handed(Stack(), layer, h)
      {
        AddLeafToLayer(s, layer, v, h, value, lower);
        value, lower := ReadLayer(layer);
        layer := layer + 1;
      }
      AddedInOrder(before, v, h);
    }

    static lemma {:induction false} AddedInOrder(s: LayerStack, v: nat, h: Hash)
      ensures forall m: Versions :: Follows(s, v, m) ==>
                HoldsAt(AddLeaf(s, v, h), v, m[v := h]) && StackPairs(AddLeaf(s, v, h)) && AddLeaf(s, v, h)[0].tree[2047 + v % 2048] == Some(h)
    {
      hide AddLeaf, Follows, HoldsAt, StackPairs;
      forall m: Versions | Follows(s, v, m)
        ensures HoldsAt(AddLeaf(s, v, h), v, m[v := h]) && StackPairs(AddLeaf(s, v, h)) && AddLeaf(s, v, h)[0].tree[2047 + v % 2048] == Some(h)
      {
        AddLeafHolds(s, v, h, m);
        AddedPairs(s, v, h, m);
      }
    }

    /** One round of AddLeafNode. */
    method AddLeafToLayer(ghost s: LayerStack, layer: nat, v: nat, ghost h: Hash, value: Option<Hash>, lower: Point)
      requires Valid() && 0 < layer <= MAX_LAYER
      requires Stack() == UpdateLayers(s, layer - 1, v, h) && (value, lower) == Handed(Stack(), layer, h)
      modifies trees, commits, dirty
      ensures Stack() == UpdateLayers(s, layer, v, h)
    {
      ghost var below := Stack();
      assert below[layer - 1] == s[layer - 1];
      label before:
      var _ := UpdateLXTree(layer, LeafOffset(layer, v), value, lower);
      StackUpdated@before(layer - 1);
      UnfoldLayers(s, below, layer, v, h);
    }

    /** A new balance (Update). */
    method Update(x: BalanceUpdate, sdb: SamuraiStore)
      requires Valid()
      modifies this`current, trees, commits, dirty, sdb
      ensures State() == UpdateAccount(old(State()), x)
      ensures sdb.records == old(sdb.records)[account := UpdateRecords(old(State()), old(sdb.RecordsOf(account)), x)]
    {
      if current == None {
        current := Some(CurrentBalance(0, x.balance, x.block));
        sdb.records := sdb.records[account := sdb.RecordsOf(account)];
      } else {
        Supersede(x, sdb);
      }
    }

    /** Store the superseded balance, add it as a leaf, and store commitments and roots when a
        layer-1 batch is complete. */
    method Supersede(x: BalanceUpdate, sdb: SamuraiStore)
      requires Valid() && current.Some?
      modifies this`current, trees, commits, dirty, sdb
      ensures State() == UpdateAccount(old(State()), x)
      ensures sdb.records == old(sdb.records)[account := UpdateRecords(old(State()), old(sdb.RecordsOf(account)), x)]
    {
      hide AddLeaf, StoreBatches, UpdateAccount, UpdateRecords;
      var r := sdb.RecordsOf(account);
      UpdateKnown(State(), x, current.value, CurrentBalance(current.value.version + 1, x.balance, x.block));
      RecordsKnown(State(), r, x, current.value);
      var hb := HistoricalBalance(current.value, Predecessor(x.block));
      var version := current.value.version;
      r := r.(history := r.history[version := hb]);
      current := Some(CurrentBalance(version + 1, x.balance, x.block));
      AddLeafNode(version, BalanceHash(hb));
      if (version + 1) % L1 == 0 {
        r := StoreBatchRecords(r, version + 1);
      }
      sdb.records := sdb.records[account := r];
    }

    /** Store the commitment and root of every layer's current batch (StoreLXBatchCommitments,
        StoreLXBatchRoots). */
    method StoreBatchRecords(r: Records, version: nat) returns (stored: Records)
      requires Valid()
      ensures stored == StoreBatches(r, version, Stack())
    {
      ghost var s := Stack();
      var commitments, roots := r.commitments, r.roots;
      var layer := 1;
      while layer <= MAX_LAYER
        invariant 1 <= layer <= MAX_LAYER + 1
        invariant commitments == KeyedCommitments(r.commitments, version, s[..layer - 1])
        invariant roots == KeyedRoots(r.roots, version, s[..layer - 1])
      {
        var root, commit := ReadLayer(layer);
        KeyedStep(r, version, s, layer);
        commitments := commitments[BatchKey(layer, version) := commit];
        roots := roots[BatchKey(layer, version) := root];
        layer := layer + 1;
      }
      assert s[..MAX_LAYER] == s;
      stored := r.(commitments := commitments, roots := roots);
    }

    /** The account object with its records. */
    ghost function Here(sdb: SamuraiStore): Kept
      requires Valid()
      reads this, trees, commits, dirty, sdb
    {
      Kept(State(), sdb.RecordsOf(account))
    }

    /** The loop of a bulk over its entries, up to the end of a layer-1 batch.  The balance that they supersede is not
        advanced. */
    method SupersedeAll(first: CurrentBalance, entries: seq<BalanceUpdate>, before: Records) returns (hashes: seq<Hash>, r: Records)
      requires current == Some(first)
      modifies this`current
      ensures var k := RoundLength(first.version, |entries|);
              && current == Some(RoundCurrent(first, entries[..k])) && r == RoundHistory(before, first, entries[..k])
              && hashes == RoundHashes(first, entries[..k])
    {
      r, hashes := before, [];
      ghost var k := RoundLength(first.version, |entries|);
      var i := 0;
      while i < |entries|
        invariant 0 <= i <= k && (i == k ==> i == |entries|)
        invariant current == Some(RoundCurrent(first, entries[..i])) && r == RoundHistory(before, first, entries[..i])
        invariant hashes == RoundHashes(first, entries[..i])
      {
        RoundStep(before, first, entries, i);
        var hb := HistoricalBalance(first, Predecessor(entries[i].block));
        r := r.(history := r.history[hb.current.version := hb]);
        current := Some(CurrentBalance(first.version + i + 1, entries[i].balance, entries[i].block));
        hashes := hashes + [BalanceHash(hb)];
        BatchEnds(first.version, i + 1);
        i := i + 1;
        if current.value.version % L1 == 0 {
          break;
        }
      }
    }

    /** The leaves of a round. */
    method AddLeaves(first: CurrentBalance, hashes: seq<Hash>, ghost entries: seq<BalanceUpdate>)
      requires Valid() && hashes == RoundHashes(first, entries)
      modifies trees, commits, dirty
      ensures Stack() == RoundLayers(old(Stack()), first, entries)
    {
      assert entries[..0] == [];
      for i := 0 to |hashes|
        invariant Stack() == RoundLayers(old(Stack()), first, entries[..i])
      {
        LayersStep(old(Stack()), first, entries, i);
        AddLeafNode(first.version, hashes[i]);
      }
      assert entries[..|hashes|] == entries;
    }

    /** One round of a bulk: the records of the round, the leaves, and the batches if one is complete. */
    method BulkRound(entries: seq<BalanceUpdate>, sdb: SamuraiStore) returns (k: nat)
      requires Valid() && current.Some? && entries != []
      modifies this`current, trees, commits, dirty, sdb
      ensures k == RoundLength(old(current).value.version, |entries|)
      ensures Here(sdb) == Round(old(Here(sdb)), old(current).value, entries[..k])
      ensures sdb.records == old(sdb.records)[account := sdb.RecordsOf(account)]
    {
      hide RoundHistory, RoundLayers, StoreBatches, RoundLength, RoundHashes;
      var first := current.value;
      ghost var s := Stack();
      k := RoundLength(first.version, |entries|);
      var hashes, r := SupersedeAll(first, entries, sdb.RecordsOf(account));
      AddLeaves(first, hashes, entries[..k]);
      var version := current.value.version;
      if version % L1 == 0 {
        r := StoreBatchRecords(r, version);
      }
      sdb.records := sdb.records[account := r];
    }

    /** A bulk of entries (UpdateBulk). */
    method UpdateBulk(entries: seq<BalanceUpdate>, sdb: SamuraiStore)
      requires Valid()
      modifies this`current, trees, commits, dirty, sdb
      ensures Here(sdb) == Bulk(old(Here(sdb)), entries)
      ensures entries != [] ==> sdb.records == old(sdb.records)[account := sdb.RecordsOf(account)]
      ensures entries == [] ==> sdb.records == old(sdb.records)
      decreases |entries|
    {
      hide Round, UpdateAccount, UpdateRecords;
      if entries == [] {
        return;
      }
      if current == None {
        Update(entries[0], sdb);
        UpdateBulk(entries[1..], sdb);
        return;
      }
      var k := BulkRound(entries, sdb);
      UpdateBulk(entries[k..], sdb);
    }

    /** The hash that is committed to the state trie (CalculateFinalCommitment): of the current balance and
        of the complete tree of the current top-layer batch over all superseded balances. */
    method CalculateFinalCommitment() returns (h: Hash)
      requires Valid() && current.Some?
      ensures h == FinalCommitment(State())
      ensures forall u: Updates :: StateAfter(State(), u) ==> h == CommitmentAfter(u)
      ensures h.PairHash? && h.left == CurrentHash(current.value) && h.right.CommitmentHash?
      ensures forall u: Updates :: StateAfter(State(), u) ==>
                && h.left == CurrentHash(CurrentBalance(|u| - 1, u[|u| - 1].balance, u[|u| - 1].block))
                && h.right.commitment == if |u| == 1 then ZERO else Commit(FullTree(4, (|u| - 2) / BatchSize(4), LeafHashes(u)))
    {
      forall u: Updates | StateAfter(State(), u) ensures FinalCommitment(State()) == CommitmentAfter(u) {
        StateCommitment(State(), u);
      }
      h := PairHash(CurrentHash(current.value), CommitmentHash(commits[MAX_LAYER - 1]));
    }

    /** One dirty chunk: written if it holds a hash, deleted if not. */
    method StoreChunk(chunks: Chunks, i: nat, c: nat) returns (after: Chunks)
      requires Valid() && i < MAX_LAYER && c < CHUNKS
      ensures var chunk := Chunk(Row(i), c);
              after == if IsEmpty(chunk) then map k | k in chunks && k != (i + 1, c) :: chunks[k] else chunks[(i + 1, c) := chunk]
    {
      var chunk := seq(CHUNK_SIZE, k requires 0 <= k < CHUNK_SIZE && Valid() && i < MAX_LAYER && c < CHUNKS reads trees =>
        trees[i, c * CHUNK_SIZE + k]);
      assert chunk == Chunk(Row(i), c);
      if IsEmpty(chunk) {
        after := map k | k in chunks && k != (i + 1, c) :: chunks[k];
      } else {
        after := chunks[(i + 1, c) := chunk];
      }
    }

    /** Store the dirty chunks of every layer (StoreCurrentLXBatchTree). */
    method StoreTree(before: Chunks) returns (chunks: Chunks)
      requires Valid()
      ensures chunks == StoreTrees(before, Stack())
    {
      ghost var s := Stack();
      chunks := before;
      ghost var done: set<(nat, nat)> := {};
      for i := 0 to MAX_LAYER
        invariant PartlyStored(before, chunks, s, done)
        invariant forall k :: k in done <==> k.0 <= i && IsDirty(s, k.0, k.1)
      {
        var pending := dirty[i];
        assert pending == s[i].dirty;
        while pending != {}
          invariant pending <= s[i].dirty
          invariant PartlyStored(before, chunks, s, done)
          invariant forall k :: k in done <==> IsDirty(s, k.0, k.1) && (k.0 <= i || (k.0 == i + 1 && k.1 !in pending))
        {
          var c :| c in pending;
          pending := pending - {c};
          if c < CHUNKS {
            assert IsDirty(s, i + 1, c);
            assert s[i].tree == Row(i);
            chunks := StoreChunk(chunks, i, c);
            done := done + {(i + 1, c)};
          }
        }
      }
      AllStored(before, chunks, s, done);
    }

    /** Persist the account (Save). */
    method Save(sdb: SamuraiStore)
      requires Valid() && current.Some?
      modifies sdb
      ensures sdb.records == old(sdb.records)[account := Accounts.Save(State(), old(sdb.RecordsOf(account)))]
    {
      var r := sdb.RecordsOf(account);
      var chunks := StoreTree(r.chunks);
      r := StoreBatchRecords(r.(current := current, chunks := chunks), current.value.version);
      sdb.records := sdb.records[account := r];
    }

    /** The account object read back from its records (the load closure of account.go). */
    constructor Load(k: Account, r: Records)
      requires Loadable(r)
      ensures Valid() && account == k && State() == Accounts.Load(r)
      ensures fresh(trees) && fresh(commits) && fresh(dirty)
    {
      account := k;
      current := r.current;
      trees := new Option<Hash>[MAX_LAYER, TREE_SIZE]((i: nat, j: nat) requires i < MAX_LAYER && j < TREE_SIZE =>
        LoadNode(r.chunks, i + 1, j / CHUNK_SIZE, j % CHUNK_SIZE));
      commits := new Point[MAX_LAYER]((i: nat) requires i < MAX_LAYER && Loadable(r) =>
        r.commitments[BatchKey(i + 1, r.current.value.version)]);
      dirty := new set<nat>[MAX_LAYER](_ => {});
      new;
      forall i: nat | i < MAX_LAYER ensures LayerAt(i) == LoadLayer(r, i + 1, r.current.value.version) {
        assert Row(i) == LoadTree(r.chunks, i + 1);
      }
    }

    twostate lemma {:induction false} StackUpdated(i: nat)
      requires Valid() && i < MAX_LAYER && OthersSame(i)
      ensures Stack() == old(Stack())[i := LayerAt(i)]
    {
      assert i != 0 ==> LayerAt(0) == old(LayerAt(0));
      assert i != 1 ==> LayerAt(1) == old(LayerAt(1));
      assert i != 2 ==> LayerAt(2) == old(LayerAt(2));
      assert i != 3 ==> LayerAt(3) == old(LayerAt(3));
    }
  }

  lemma {:induction false} AppendAssociates<T>(a: seq<T>, x: T, b: seq<T>)
    ensures a + ([x] + b) == a + [x] + b
  {
  }

  lemma {:induction false} KeyedStep(r: Records, version: nat, s: LayerStack, layer: nat)
    requires 0 < layer <= MAX_LAYER
    ensures KeyedCommitments(r.commitments, version, s[..layer]) ==
            KeyedCommitments(r.commitments, version, s[..layer - 1])[BatchKey(layer, version) := s[layer - 1].commit]
    ensures KeyedRoots(r.roots, version, s[..layer]) ==
            KeyedRoots(r.roots, version, s[..layer - 1])[BatchKey(layer, version) := s[layer - 1].tree[0]]
  {
    assert s[..layer][..layer - 1] == s[..layer - 1];
  }

  /** The chunks in `done` are stored, the others are as before. */
  ghost predicate PartlyStored(before: Chunks, chunks: Chunks, s: LayerStack, done: set<(nat, nat)>) {
    && (forall k :: k in done ==> IsDirty(s, k.0, k.1))
    && forall k :: if k in done && IsEmpty(Chunk(s[k.0 - 1].tree, k.1)) then k !in chunks
                   else if k in done then k in chunks && chunks[k] == Chunk(s[k.0 - 1].tree, k.1)
                   else (k in chunks <==> k in before) && (k in before ==> chunks[k] == before[k])
  }

  lemma {:induction false} AllStored(before: Chunks, chunks: Chunks, s: LayerStack, done: set<(nat, nat)>)
    requires PartlyStored(before, chunks, s, done)
    requires forall k :: k in done <==> IsDirty(s, k.0, k.1)
    ensures chunks == StoreTrees(before, s)
  {
    var after := StoreTrees(before, s);
    forall k: (nat, nat) ensures k in chunks <==> k in after
      ensures k in chunks ==> chunks[k] == after[k]
    {
      assert k in done <==> IsDirty(s, k.0, k.1);
      assert IsDirty(s, k.0, k.1) <==> k in DirtyKeys(s);
    }
  }

  lemma {:induction false} WalkStep(t: HashVector, p: nat, updated: seq<nat>)
    requires 0 < p && p + 1 < |t|
    ensures var h := Combine(t[2 * Parent(p) + 1], t[2 * Parent(p) + 2]);
            if h == None then Climb(t, p) == t && updated + Climbed(t, p) == updated
            else Climb(t, p) == Climb(t[Parent(p) := h], Parent(p)) &&
                 updated + Climbed(t, p) == updated + [Parent(p)] + Climbed(t[Parent(p) := h], Parent(p))
    ensures ChunksOf(updated + [Parent(p)]) == ChunksOf(updated) + {Parent(p) / CHUNK_SIZE}
  {
    ClimbUnfold(t, p);
    ChunksOfAppend(updated, Parent(p));
    var h := Combine(t[2 * Parent(p) + 1], t[2 * Parent(p) + 2]);
    if h.Some? {
      AppendAssociates(updated, Parent(p), Climbed(t[Parent(p) := h], Parent(p)));
    }
  }

  lemma {:induction false} ClimbUnfold(t: HashVector, p: nat)
    requires 0 < p && p + 1 < |t|
    ensures var h := Combine(t[2 * Parent(p) + 1], t[2 * Parent(p) + 2]);
            if h == None then Climb(t, p) == t && Climbed(t, p) == []
            else Climb(t, p) == Climb(t[Parent(p) := h], Parent(p)) &&
                 Climbed(t, p) == [Parent(p)] + Climbed(t[Parent(p) := h], Parent(p))
  {
  }

  lemma {:induction false} ChunksOfAppend(nodes: seq<nat>, k: nat)
    ensures ChunksOf(nodes + [k]) == ChunksOf(nodes) + {k / CHUNK_SIZE}
  {
    if nodes != [] {
      assert (nodes + [k])[1..] == nodes[1..] + [k];
      ChunksOfAppend(nodes[1..], k);
    }
  }
}
