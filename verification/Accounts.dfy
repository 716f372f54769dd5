/** An account's state, its database records, and what they hold after any series of updates
    (types.go, Update, UpdateBulk and Save; persistence.go). */
module Accounts {
  import opened Arithmetic
  import opened Primitives
  import opened Heap
  import opened Layers
  import opened SegmentTree

  datatype AccountState = AccountState(current: Option<CurrentBalance>, layers: LayerStack)

  function NewAccount(): AccountState {
    AccountState(None, [EmptyLayer(), EmptyLayer(), EmptyLayer(), EmptyLayer()])
  }

  /** The records kept for one account.  Chunks, commitments and roots are keyed by layer and by
      chunk or batch index. */
  datatype Records = Records(
    current: Option<CurrentBalance>,
    chunks: Chunks,
    commitments: map<(nat, nat), Point>,
    roots: map<(nat, nat), Option<Hash>>,
    history: map<nat, HistoricalBalance>)

  const NO_RECORDS := Records(None, map[], map[], map[], map[])

  // ----- unsigned arithmetic

  const MAX_UINT64: nat := 0xFFFF_FFFF_FFFF_FFFF

  /** x - 1 on 64-bit unsigned integers. */
  function Predecessor(x: nat): nat {
    if x == 0 then MAX_UINT64 else x - 1
  }

  /** The key under which a layer's batch is stored at the given version. */
  function BatchKey(layer: nat, version: nat): (nat, nat)
    requires 0 < layer <= MAX_LAYER
  {
    (layer, Predecessor(version) / BatchSize(layer))
  }

  // ----- storing

  type Commitments = map<(nat, nat), Point>
  type Roots = map<(nat, nat), Option<Hash>>

  function KeyedCommitments(c: Commitments, version: nat, s: seq<Layer>): Commitments
    requires |s| <= MAX_LAYER
  {
    if s == [] then c
    else KeyedCommitments(c, version, s[..|s| - 1])[BatchKey(|s|, version) := s[|s| - 1].commit]
  }

  function KeyedRoots(c: Roots, version: nat, s: seq<Layer>): Roots
    requires |s| <= MAX_LAYER && forall i :: 0 <= i < |s| ==> |s[i].tree| == TREE_SIZE
  {
    if s == [] then c
    else KeyedRoots(c, version, s[..|s| - 1])[BatchKey(|s|, version) := s[|s| - 1].tree[0]]
  }

  /** Commitments and roots of the current batch of every layer, under the keys of a version. */
  function StoreBatches(r: Records, version: nat, s: LayerStack): Records {
    r.(commitments := KeyedCommitments(r.commitments, version, s), roots := KeyedRoots(r.roots, version, s))
  }

  const CHUNKS := TREE_SIZE / CHUNK_SIZE

  function Chunk(t: HashVector, c: nat): (chunk: HashVector)
    requires |t| == TREE_SIZE && c < CHUNKS
    ensures |chunk| == CHUNK_SIZE
  {
    t[c * CHUNK_SIZE..(c + 1) * CHUNK_SIZE]
  }

  predicate IsEmpty(chunk: HashVector) {
    forall i :: 0 <= i < |chunk| ==> chunk[i] == None
  }

  predicate IsDirty(s: LayerStack, layer: nat, c: nat) {
    0 < layer <= MAX_LAYER && c < CHUNKS && c in s[layer - 1].dirty
  }

  type Chunks = map<(nat, nat), HashVector>

  function DirtyKeys(s: LayerStack): set<(nat, nat)> {
    set layer: nat, c: nat | 0 < layer <= MAX_LAYER && c in s[layer - 1].dirty && c < CHUNKS :: (layer, c)
  }

  /** Dirty chunks are written, or deleted when all their hashes are empty; the others are left. */
  function StoreTrees(before: Chunks, s: LayerStack): Chunks {
    map k | k in before.Keys + DirtyKeys(s) && !(IsDirty(s, k.0, k.1) && IsEmpty(Chunk(s[k.0 - 1].tree, k.1))) ::
      if IsDirty(s, k.0, k.1) then Chunk(s[k.0 - 1].tree, k.1) else before[k]
  }

  /** The stored contents of a chunk: an absent chunk is all empty. */
  function StoredChunk(chunks: Chunks, layer: nat, c: nat): HashVector {
    if (layer, c) in chunks then chunks[(layer, c)] else seq(CHUNK_SIZE, _ => None)
  }

  lemma {:induction false} DirtyKey(s: LayerStack, k: (nat, nat))
    ensures k in DirtyKeys(s) <==> IsDirty(s, k.0, k.1)
  {
  }

  /** The chunk stored under a key afterwards, if any. */
  lemma {:induction false} StoredUnder(before: Chunks, s: LayerStack, k: (nat, nat))
    ensures var after := StoreTrees(before, s);
            if IsDirty(s, k.0, k.1) then
              if IsEmpty(Chunk(s[k.0 - 1].tree, k.1)) then k !in after else k in after && after[k] == Chunk(s[k.0 - 1].tree, k.1)
            else (k in after <==> k in before) && (k in before ==> after[k] == before[k])
  {
    hide Chunk, IsEmpty;
    DirtyKey(s, k);
  }

  lemma {:induction false} EmptyChunk(chunk: HashVector)
    requires |chunk| == CHUNK_SIZE && IsEmpty(chunk)
    ensures chunk == seq(CHUNK_SIZE, _ => None)
  {
  }

  lemma {:induction false} StoreTreesChunk(before: Chunks, s: LayerStack, layer: nat, c: nat)
    requires 0 < layer <= MAX_LAYER && c < CHUNKS
    ensures StoredChunk(StoreTrees(before, s), layer, c) ==
            if c in s[layer - 1].dirty then Chunk(s[layer - 1].tree, c) else StoredChunk(before, layer, c)
    ensures (layer, c) in StoreTrees(before, s) <==>
            if c in s[layer - 1].dirty then Chunk(s[layer - 1].tree, c) != seq(CHUNK_SIZE, _ => None)
            else (layer, c) in before
  {
    StoredUnder(before, s, (layer, c));
    if IsEmpty(Chunk(s[layer - 1].tree, c)) {
      EmptyChunk(Chunk(s[layer - 1].tree, c));
    }
  }

  /** The tree of a layer as read back from its chunks. */
  function LoadTree(chunks: Chunks, layer: nat): (t: HashVector)
    ensures |t| == TREE_SIZE
  {
    seq(TREE_SIZE, i requires 0 <= i => LoadNode(chunks, layer, i / CHUNK_SIZE, i % CHUNK_SIZE))
  }

  function LoadNode(chunks: Chunks, layer: nat, c: nat, k: nat): Option<Hash> {
    if (layer, c) in chunks && k < |chunks[(layer, c)]| then chunks[(layer, c)][k] else None
  }

  /** Every chunk that is not marked dirty equals its stored chunk. */
  ghost predicate ChunksAgree(s: LayerStack, chunks: Chunks) {
    forall layer: nat, c: nat :: 0 < layer <= MAX_LAYER && c < CHUNKS && c !in s[layer - 1].dirty ==>
      StoredChunk(chunks, layer, c) == Chunk(s[layer - 1].tree, c)
  }

  lemma {:induction false} LoadedNode(chunks: Chunks, layer: nat, t: HashVector, i: nat)
    requires |t| == TREE_SIZE && i < TREE_SIZE && StoredChunk(chunks, layer, i / CHUNK_SIZE) == Chunk(t, i / CHUNK_SIZE)
    ensures LoadTree(chunks, layer)[i] == t[i]
  {
    var c, k := i / CHUNK_SIZE, i % CHUNK_SIZE;
    assert Chunk(t, c)[k] == t[i];
  }

  /** Save followed by load is the identity on trees. */
  lemma {:induction false} LoadStoredTree(before: Chunks, s: LayerStack, layer: nat)
    requires ChunksAgree(s, before) && 0 < layer <= MAX_LAYER
    ensures LoadTree(StoreTrees(before, s), layer) == s[layer - 1].tree
  {
    var after := StoreTrees(before, s);
    var t := s[layer - 1].tree;
    forall i: nat | i < TREE_SIZE ensures LoadTree(after, layer)[i] == t[i] {
      StoreTreesChunk(before, s, layer, i / CHUNK_SIZE);
      LoadedNode(after, layer, t, i);
    }
    assert LoadTree(after, layer) == t;
  }

  /** Node i of a stored tree is entry i % 64 of chunk i / 64. */
  lemma {:induction false} NodeStored(before: Chunks, s: LayerStack, layer: nat, i: nat)
    requires ChunksAgree(s, before) && 0 < layer <= MAX_LAYER && i < TREE_SIZE
    ensures |StoredChunk(StoreTrees(before, s), layer, i / 64)| == 64
    ensures StoredChunk(StoreTrees(before, s), layer, i / 64)[i % 64] == s[layer - 1].tree[i]
  {
    hide StoreTrees, StoredChunk, Chunk;
    var c := i / CHUNK_SIZE;
    StoreTreesChunk(before, s, layer, c);
    ChunkEntry(s[layer - 1].tree, i);
    assert c !in s[layer - 1].dirty ==> StoredChunk(before, layer, c) == Chunk(s[layer - 1].tree, c);
  }

  lemma {:induction false} ChunkEntry(t: HashVector, i: nat)
    requires |t| == TREE_SIZE && i < TREE_SIZE
    ensures Chunk(t, i / CHUNK_SIZE)[i % CHUNK_SIZE] == t[i]
  {
  }

  // ----- operations

  datatype BalanceUpdate = BalanceUpdate(block: nat, balance: nat)

  /** A new balance from a block on (Update; UpdateBulk with one entry does the same). */
  function UpdateAccount(a: AccountState, x: BalanceUpdate): AccountState {
    if a.current == None then a.(current := Some(CurrentBalance(0, x.balance, x.block)))
    else
      var superseded := a.current.value;
      AccountState(Some(CurrentBalance(superseded.version + 1, x.balance, x.block)),
                   AddLeaf(a.layers, superseded.version, BalanceHash(HistoricalBalance(superseded, Predecessor(x.block)))))
  }

  /** The records after the update: the history entry, and at the end of a layer-1 batch the
      commitments and roots of all layers. */
  function UpdateRecords(a: AccountState, r: Records, x: BalanceUpdate): Records {
    if a.current == None then r
    else
      var superseded := a.current.value;
      var version := superseded.version + 1;
      var r1 := r.(history := r.history[superseded.version := HistoricalBalance(superseded, Predecessor(x.block))]);
      if version % L1 == 0 then StoreBatches(r1, version, UpdateAccount(a, x).layers) else r1
  }

  function StoreAccount(a: AccountState, r: Records): Records {
    r.(current := a.current, chunks := StoreTrees(r.chunks, a.layers))
  }

  function Save(a: AccountState, r: Records): Records
    requires a.current.Some?
  {
    var version := a.current.value.version;
    StoreBatches(StoreAccount(a, r), version, a.layers)
  }

  /** The state read back from the records of a saved account. */
  function Load(r: Records): (a: AccountState)
    requires r.current.Some?
    requires forall layer :: 0 < layer <= MAX_LAYER ==> BatchKey(layer, r.current.value.version) in r.commitments
  {
    var version := r.current.value.version;
    AccountState(r.current, [LoadLayer(r, 1, version), LoadLayer(r, 2, version), LoadLayer(r, 3, version), LoadLayer(r, 4, version)])
  }

  function LoadLayer(r: Records, layer: nat, version: nat): Layer
    requires 0 < layer <= MAX_LAYER && BatchKey(layer, version) in r.commitments
  {
    Layer(LoadTree(r.chunks, layer), r.commitments[BatchKey(layer, version)], {})
  }

  /** The hash committed to the state trie. */
  function FinalCommitment(a: AccountState): Hash
    requires a.current.Some?
  {
    PairHash(CurrentHash(a.current.value), CommitmentHash(a.layers[MAX_LAYER - 1].commit))
  }

  // ----- what a series of updates means

  type Updates = u: seq<BalanceUpdate> | |u| > 0 witness [BalanceUpdate(0, 0)]

  /** The balance superseded by update i + 1. */
  function Superseded(u: Updates, i: nat): HistoricalBalance
    requires i < |u| - 1
  {
    HistoricalBalance(CurrentBalance(i, u[i].balance, u[i].block), Predecessor(u[i + 1].block))
  }

  function Current(u: Updates): CurrentBalance {
    CurrentBalance(|u| - 1, u[|u| - 1].balance, u[|u| - 1].block)
  }

  /** The leaf hashes of all versions with a successor. */
  function LeafHashes(u: Updates): Versions {
    map v: nat | v < |u| - 1 :: BalanceHash(Superseded(u, v))
  }

  /** A layer after the updates: empty before the first leaf, the tree of the last batch after it. */
  ghost predicate LayerAfter(s: LayerStack, layer: nat, u: Updates)
    requires 0 < layer <= MAX_LAYER
  {
    if |u| == 1 then s[layer - 1].tree == EmptyTree() && s[layer - 1].commit == ZERO
    else LayerHolds(s[layer - 1], layer, (|u| - 2) / BatchSize(layer), LeafHashes(u))
  }

  ghost predicate StateAfter(a: AccountState, u: Updates) {
    && a.current == Some(Current(u))
    && forall layer :: 0 < layer <= MAX_LAYER ==> LayerAfter(a.layers, layer, u)
  }

  /** The hash committed for an account after the updates: it depends on nothing else. */
  function CommitmentAfter(u: Updates): Hash {
    var top := if |u| == 1 then ZERO else Commit(FullTree(MAX_LAYER, (|u| - 2) / BatchSize(MAX_LAYER), LeafHashes(u)));
    PairHash(CurrentHash(Current(u)), CommitmentHash(top))
  }

  lemma {:induction false} StateCommitment(a: AccountState, u: Updates)
    requires StateAfter(a, u)
    ensures FinalCommitment(a) == CommitmentAfter(u)
  {
    assert LayerAfter(a.layers, MAX_LAYER, u);
  }

  /** The archive: every version below the current one has its history entry, and every completed
      batch of every layer has its final root and commitment. */
  ghost predicate Archived(r: Records, u: Updates) {
    && r.history == (map v: nat | v < |u| - 1 :: Superseded(u, v))
    && forall layer, b :: 0 < layer <= MAX_LAYER && 0 <= b && (b + 1) * BatchSize(layer) <= |u| - 1 ==>
         BatchArchived(r, layer, b, LeafHashes(u))
  }

  ghost predicate BatchArchived(r: Records, layer: nat, b: nat, m: Versions)
    requires 0 < layer <= MAX_LAYER
  {
    && (layer, b) in r.commitments && r.commitments[(layer, b)] == Commit(FullTree(layer, b, m))
    && (layer, b) in r.roots && r.roots[(layer, b)] == Root(layer, b, m)
  }

  /** Commitments are stored for batches that have been started only, apart from those that a save
      at version 0 stores under the wrapped key. */
  ghost predicate OnlyStarted(r: Records, n: nat) {
    forall k :: k in r.commitments ==> StartedKey(k, n)
  }

  predicate StartedKey(k: (nat, nat), n: nat) {
    0 < k.0 <= MAX_LAYER && (k.1 == MAX_UINT64 / BatchSize(k.0) || (n >= 2 && k.1 <= (n - 2) / BatchSize(k.0)))
  }

  // ----- updates keep the state

  lemma {:induction false} LastSuperseded(u: Updates, x: BalanceUpdate)
    ensures Superseded(u + [x], |u| - 1) == HistoricalBalance(Current(u), Predecessor(x.block))
    ensures Current(u + [x]) == CurrentBalance(|u|, x.balance, x.block)
  {
  }

  lemma {:induction false} LeafHashesAppend(u: Updates, x: BalanceUpdate)
    ensures LeafHashes(u + [x]) == LeafHashes(u)[|u| - 1 := BalanceHash(Superseded(u + [x], |u| - 1))]
    ensures forall v: nat :: v in LeafHashes(u) <==> v < |u| - 1
  {
    var u' := u + [x];
    assert forall v: nat :: v < |u| ==> u'[v] == u[v];
  }

  lemma {:induction false} StateFollows(a: AccountState, u: Updates)
    requires StateAfter(a, u)
    ensures Follows(a.layers, |u| - 1, LeafHashes(u))
  {
    var v := |u| - 1;
    forall layer: nat | 0 < layer <= MAX_LAYER ensures Continues(a.layers, layer, v, LeafHashes(u)) {
      assert LayerAfter(a.layers, layer, u);
      if |u| > 1 {
        SameBatch(layer, |u| - 2);
      }
    }
  }

  lemma {:induction false} UnfoldAccount(a: AccountState, u: Updates, x: BalanceUpdate)
    requires a.current == Some(Current(u))
    ensures UpdateAccount(a, x) ==
            AccountState(Some(Current(u + [x])), AddLeaf(a.layers, |u| - 1, BalanceHash(Superseded(u + [x], |u| - 1))))
  {
    hide AddLeaf;
    LastSuperseded(u, x);
    UpdateKnown(a, x, Current(u), Current(u + [x]));
  }

  lemma {:induction false} UpdateKnown(a: AccountState, x: BalanceUpdate, current: CurrentBalance, next: CurrentBalance)
    requires a.current == Some(current) && next == CurrentBalance(current.version + 1, x.balance, x.block)
    ensures UpdateAccount(a, x) ==
            AccountState(Some(next), AddLeaf(a.layers, current.version, BalanceHash(HistoricalBalance(current, Predecessor(x.block)))))
  {
  }

  lemma {:induction false} RecordsKnown(a: AccountState, r: Records, x: BalanceUpdate, current: CurrentBalance)
    requires a.current == Some(current)
    ensures var r1 := r.(history := r.history[current.version := HistoricalBalance(current, Predecessor(x.block))]);
            UpdateRecords(a, r, x) ==
            if (current.version + 1) % L1 == 0 then StoreBatches(r1, current.version + 1, UpdateAccount(a, x).layers) else r1
  {
    hide StoreBatches;
  }

  lemma {:induction false} UnfoldRecords(a: AccountState, r: Records, u: Updates, x: BalanceUpdate)
    requires a.current == Some(Current(u))
    ensures var r1 := r.(history := r.history[|u| - 1 := Superseded(u + [x], |u| - 1)]);
            UpdateRecords(a, r, x) == if |u| % L1 == 0 then StoreBatches(r1, |u|, UpdateAccount(a, x).layers) else r1
  {
    hide StoreBatches;
    LastSuperseded(u, x);
  }

  /** An update takes the state of one series of updates to the state of the longer series. */
  lemma {:induction false} UpdateState(a: AccountState, u: Updates, x: BalanceUpdate)
    requires StateAfter(a, u)
    ensures StateAfter(UpdateAccount(a, x), u + [x])
  {
    UnfoldAccount(a, u, x);
    LeafHashesAppend(u, x);
    UpdateHolds(a, u, LeafHashes(u + [x]), BalanceHash(Superseded(u + [x], |u| - 1)));
    HoldsAfter(UpdateAccount(a, x), u + [x]);
  }

  lemma {:induction false} UpdateHolds(a: AccountState, u: Updates, m: Versions, h: Hash)
    requires StateAfter(a, u) && m == LeafHashes(u)[|u| - 1 := h]
    ensures HoldsAt(AddLeaf(a.layers, |u| - 1, h), |u| - 1, m)
  {
    hide *;
    StateFollows(a, u);
    AddLeafHolds(a.layers, |u| - 1, h, LeafHashes(u));
  }

  lemma {:induction false} HoldsAfter(a: AccountState, u: Updates)
    requires a.current == Some(Current(u)) && |u| > 1
    requires HoldsAt(a.layers, |u| - 2, LeafHashes(u))
    ensures StateAfter(a, u)
  {
    forall layer | 0 < layer <= MAX_LAYER ensures LayerAfter(a.layers, layer, u) {
      assert LayerAt(a.layers, layer, |u| - 2, LeafHashes(u));
    }
  }

  lemma {:induction false} FirstUpdateState(x: BalanceUpdate)
    ensures StateAfter(UpdateAccount(NewAccount(), x), [x])
  {
    var a := UpdateAccount(NewAccount(), x);
    forall layer | 0 < layer <= MAX_LAYER ensures LayerAfter(a.layers, layer, [x]) {
      assert a.layers[layer - 1] == EmptyLayer();
    }
  }

  // ----- updates keep the archive

  lemma {:induction false} OlderBatch(layer: nat, b: nat, m: Versions, v: nat, h: Hash)
    requires 0 < layer <= MAX_LAYER && b != v / BatchSize(layer)
    ensures FullTree(layer, b, m[v := h]) == FullTree(layer, b, m)
    ensures Root(layer, b, m[v := h]) == Root(layer, b, m)
  {
    forall u: nat | InBatch(layer, b, u) ensures SameAt(m, m[v := h], u) {
    }
    FullTreeLocal(layer, b, m, m[v := h]);
    RootLocal(layer, b, m, m[v := h]);
  }

  lemma {:induction false} BatchEnd(layer: nat, b: nat, n: nat)
    requires 0 < layer <= MAX_LAYER && n > 0
    ensures (b + 1) * BatchSize(layer) == n ==> n % L1 == 0 && (n - 1) / BatchSize(layer) == b
    ensures (b + 1) * BatchSize(layer) < n ==> (n - 1) / BatchSize(layer) != b && (b + 1) * BatchSize(layer) <= n - 1
  {
    var size := BatchSize(layer);
    ProductBound(b + 1, size, n - 1);
    if (b + 1) * size == n {
      var k := WholeLeafBatches(layer);
      Successor(b, size);
      DivUnique(n - 1, size, b, size - 1);
      Multiple(b + 1, size);
      ModMod(n, size, L1, k);
    }
  }

  lemma {:induction false} WholeLeafBatches(layer: nat) returns (k: nat)
    requires 0 < layer <= MAX_LAYER
    ensures BatchSize(layer) == L1 * k
  {
    k := if layer == 1 then 1 else if layer == 2 then L2 else if layer == 3 then L2 * L2 else L2 * L2 * L2;
  }

  lemma {:induction false} StoredAt(r: Records, version: nat, s: LayerStack, layer: nat, b: nat)
    requires 0 < layer <= MAX_LAYER
    ensures var r' := StoreBatches(r, version, s);
            if (layer, b) == BatchKey(layer, version) then
              && (layer, b) in r'.commitments && r'.commitments[(layer, b)] == s[layer - 1].commit
              && (layer, b) in r'.roots && r'.roots[(layer, b)] == s[layer - 1].tree[0]
            else
              && ((layer, b) in r'.commitments <==> (layer, b) in r.commitments)
              && ((layer, b) in r.commitments ==> r'.commitments[(layer, b)] == r.commitments[(layer, b)])
              && ((layer, b) in r'.roots <==> (layer, b) in r.roots)
              && ((layer, b) in r.roots ==> r'.roots[(layer, b)] == r.roots[(layer, b)])
  {
    KeyedAt(r, version, s, layer, b);
  }

  lemma {:induction false} KeyedAt(r: Records, version: nat, s: seq<Layer>, layer: nat, b: nat)
    requires |s| <= MAX_LAYER && 0 < layer <= MAX_LAYER
    requires forall i :: 0 <= i < |s| ==> |s[i].tree| == TREE_SIZE
    ensures var c := KeyedCommitments(r.commitments, version, s);
            if layer <= |s| && (layer, b) == BatchKey(layer, version)
            then (layer, b) in c && c[(layer, b)] == s[layer - 1].commit
            else ((layer, b) in c <==> (layer, b) in r.commitments) &&
                 ((layer, b) in r.commitments ==> c[(layer, b)] == r.commitments[(layer, b)])
    ensures var c := KeyedRoots(r.roots, version, s);
            if layer <= |s| && (layer, b) == BatchKey(layer, version)
            then (layer, b) in c && c[(layer, b)] == s[layer - 1].tree[0]
            else ((layer, b) in c <==> (layer, b) in r.roots) &&
                 ((layer, b) in r.roots ==> c[(layer, b)] == r.roots[(layer, b)])
  {
    if s != [] {
      KeyedAt(r, version, s[..|s| - 1], layer, b);
    }
  }

  /** An update keeps the archive: batches complete only at multiples of the layer-1 batch size,
      where roots and commitments are stored. */
  lemma {:induction false} UpdateArchive(a: AccountState, r: Records, u: Updates, x: BalanceUpdate)
    requires StateAfter(a, u) && Archived(r, u)
    ensures Archived(UpdateRecords(a, r, x), u + [x])
  {
    hide BatchSize, LeafHashes, UpdateAccount, UpdateRecords;
    var u' := u + [x];
    var a', r' := UpdateAccount(a, x), UpdateRecords(a, r, x);
    UpdateState(a, u, x);
    UnfoldRecords(a, r, u, x);
    HistoryAppend(r, u, x);
    forall layer, b | 0 < layer <= MAX_LAYER && 0 <= b && (b + 1) * BatchSize(layer) <= |u'| - 1
      ensures BatchArchived(r', layer, b, LeafHashes(u'))
    {
      BatchEnd(layer, b, |u|);
      if (b + 1) * BatchSize(layer) == |u| {
        CompletedBatch(a', r.(history := r'.history), u', layer, b);
      } else {
        assert BatchArchived(r, layer, b, LeafHashes(u));
        EarlierBatch(a', r, r'.history, u, x, layer, b);
      }
    }
  }

  lemma {:induction false} HistoryAppend(r: Records, u: Updates, x: BalanceUpdate)
    requires r.history == map v: nat | v < |u| - 1 :: Superseded(u, v)
    ensures r.history[|u| - 1 := Superseded(u + [x], |u| - 1)] == map v: nat | v < |u + [x]| - 1 :: Superseded(u + [x], v)
  {
    var u' := u + [x];
    assert forall v: nat :: v < |u| ==> u'[v] == u[v];
  }

  lemma {:induction false} CompletedBatch(a: AccountState, r: Records, u: Updates, layer: nat, b: nat)
    requires 0 < layer <= MAX_LAYER && |u| > 1 && StateAfter(a, u)
    requires (|u| - 2) / BatchSize(layer) == b
    ensures BatchArchived(StoreBatches(r, |u| - 1, a.layers), layer, b, LeafHashes(u))
  {
    StoredAt(r, |u| - 1, a.layers, layer, b);
    assert LayerAfter(a.layers, layer, u);
    TreeRoot(layer, b, LeafHashes(u));
  }

  lemma {:induction false} EarlierBatch(a: AccountState, r: Records, history: map<nat, HistoricalBalance>, u: Updates, x: BalanceUpdate,
                     layer: nat, b: nat)
    requires 0 < layer <= MAX_LAYER && BatchArchived(r, layer, b, LeafHashes(u))
    requires (|u| - 1) / BatchSize(layer) != b
    ensures var r1 := r.(history := history);
            && BatchArchived(r1, layer, b, LeafHashes(u + [x]))
            && BatchArchived(StoreBatches(r1, |u|, a.layers), layer, b, LeafHashes(u + [x]))
  {
    LeafHashesAppend(u, x);
    OlderBatch(layer, b, LeafHashes(u), |u| - 1, BalanceHash(Superseded(u + [x], |u| - 1)));
    StoredAt(r.(history := history), |u|, a.layers, layer, b);
  }

  lemma {:induction false} KeyedKeys(c: Commitments, version: nat, s: seq<Layer>, k: (nat, nat))
    requires |s| <= MAX_LAYER && k in KeyedCommitments(c, version, s)
    ensures k in c || (0 < k.0 <= |s| && k == BatchKey(k.0, version))
  {
    if s != [] && k != BatchKey(|s|, version) {
      KeyedKeys(c, version, s[..|s| - 1], k);
    }
  }

  lemma {:induction false} StoreStarted(r: Records, version: nat, s: LayerStack, n: nat)
    requires OnlyStarted(r, n) && version < n
    ensures OnlyStarted(StoreBatches(r, version, s), n)
  {
    forall k | k in StoreBatches(r, version, s).commitments ensures StartedKey(k, n) {
      KeyedKeys(r.commitments, version, s, k);
      if k !in r.commitments && version > 0 {
        Monotone(version - 1, n - 2, BatchSize(k.0));
      }
    }
  }

  lemma {:induction false} UpdateStarted(a: AccountState, r: Records, u: Updates, x: BalanceUpdate)
    requires a.current == Some(Current(u)) && OnlyStarted(r, |u|)
    ensures OnlyStarted(UpdateRecords(a, r, x), |u + [x]|)
  {
    UnfoldRecords(a, r, u, x);
    var r1 := r.(history := r.history[|u| - 1 := Superseded(u + [x], |u| - 1)]);
    forall k | k in r1.commitments ensures StartedKey(k, |u| + 1) {
      assert StartedKey(k, |u|);
      if |u| >= 2 {
        Monotone(|u| - 2, |u| - 1, BatchSize(k.0));
      }
    }
    StoreStarted(r1, |u|, UpdateAccount(a, x).layers, |u| + 1);
  }

  // ----- updates keep the agreement with the stored chunks

  /** Every node that changed lies in a dirty chunk, and no chunk becomes clean. */
  ghost predicate Marks(s: Layer, r: Layer) {
    && |s.tree| == |r.tree| == TREE_SIZE
    && s.dirty <= r.dirty
    && forall i :: 0 <= i < TREE_SIZE && s.tree[i] != r.tree[i] ==> i / CHUNK_SIZE in r.dirty
  }

  lemma {:induction false} ChunksBelowAll(n: nat, c: nat)
    requires c < n
    ensures c in ChunksBelow(n)
  {
    if c < n - 1 {
      ChunksBelowAll(n - 1, c);
    }
  }

  lemma {:induction false} ChunksOfAll(nodes: seq<nat>, k: nat)
    requires k in nodes
    ensures k / CHUNK_SIZE in ChunksOf(nodes)
  {
    if k != nodes[0] {
      ChunksOfAll(nodes[1..], k);
    }
  }

  lemma {:induction false} ResetMarks(s: Layer, layer: nat, v: nat)
    requires 0 < layer <= MAX_LAYER && |s.tree| == TREE_SIZE
    ensures Marks(s, ResetLayer(s, layer, v))
  {
    var r := ResetLayer(s, layer, v);
    forall i | 0 <= i < TREE_SIZE && s.tree[i] != r.tree[i] ensures i / CHUNK_SIZE in r.dirty {
      ChunksBelowAll(CHUNKS, i / CHUNK_SIZE);
    }
  }

  lemma {:induction false} InsertMarks(s: Layer, idx: nat, value: Option<Hash>)
    requires |s.tree| == TREE_SIZE && idx + 1 < TREE_SIZE
    ensures Marks(s, InsertLeaf(s, idx, value))
  {
    if value.Some? {
      var t := s.tree[idx := value];
      var r := StoreLeaf(s, t, idx);
      forall i: nat | i < TREE_SIZE && s.tree[i] != r.tree[i] ensures i / CHUNK_SIZE in r.dirty {
        if i !in Written(t, idx) {
          assert i !in Climbed(t, idx);
          ClimbFixed(t, idx, i);
        }
        ChunksOfAll(Written(t, idx), i);
      }
    }
  }

  lemma {:induction false} MarksTransitive(s: Layer, r: Layer, q: Layer)
    requires Marks(s, r) && Marks(r, q)
    ensures Marks(s, q)
  {
  }

  lemma {:induction false} UpdateLayerMarks(s: Layer, layer: nat, idx: nat, value: Option<Hash>, lower: Point)
    requires |s.tree| == TREE_SIZE && idx + 1 < TREE_SIZE && (layer > 1 ==> L2 + idx < TREE_SIZE)
    ensures Marks(s, UpdateLayer(s, layer, idx, value, lower))
  {
    if layer > 1 {
      var s1 := SetSlot(s, L2 + idx, CommitmentHash(lower));
      InsertMarks(s1, idx, value);
      MarksTransitive(s, s1, InsertLeaf(s1, idx, value));
    } else {
      InsertMarks(s, idx, value);
    }
  }

  lemma {:induction false} UpdateLayersMark(s: LayerStack, layer: nat, v: nat, h: Hash, i: nat)
    requires i < layer <= MAX_LAYER
    ensures Marks(s[i], UpdateLayers(s, layer, v, h)[i])
  {
    hide UpdateLayers, UpdateLayer, Marks, BatchSize;
    var below := UpdateLayers(s, layer - 1, v, h);
    var (value, lower) := Handed(below, layer, h);
    UnfoldLayers(s, below, layer, v, h);
    if i < layer - 1 {
      UpdateLayersMark(s, layer - 1, v, h, i);
    } else {
      UpdateLayerMarks(s[i], layer, LeafOffset(layer, v), value, lower);
    }
  }

  lemma {:induction false} AddLeafMarks(s: LayerStack, v: nat, h: Hash, i: nat)
    requires i < MAX_LAYER
    ensures Marks(s[i], AddLeaf(s, v, h)[i])
  {
    ResetMarks(s[i], i + 1, v);
    UpdateLayersMark(Reset(s, v), MAX_LAYER, v, h, i);
    MarksTransitive(s[i], Reset(s, v)[i], AddLeaf(s, v, h)[i]);
  }

  lemma {:induction false} MarkedChunk(s: Layer, r: Layer, c: nat)
    requires Marks(s, r) && c < CHUNKS && c !in r.dirty
    ensures c !in s.dirty && Chunk(s.tree, c) == Chunk(r.tree, c)
  {
    forall k | 0 <= k < CHUNK_SIZE ensures Chunk(s.tree, c)[k] == Chunk(r.tree, c)[k] {
      assert (c * CHUNK_SIZE + k) / CHUNK_SIZE == c;
    }
  }

  lemma {:induction false} UpdateChunks(a: AccountState, r: Records, x: BalanceUpdate)
    requires ChunksAgree(a.layers, r.chunks)
    ensures ChunksAgree(UpdateAccount(a, x).layers, UpdateRecords(a, r, x).chunks)
  {
    if a.current.Some? {
      var version := a.current.value.version;
      var h := BalanceHash(HistoricalBalance(a.current.value, Predecessor(x.block)));
      AddLeafChunks(a.layers, version, h, r.chunks);
    }
  }

  lemma {:induction false} AddLeafChunks(s: LayerStack, v: nat, h: Hash, chunks: Chunks)
    requires ChunksAgree(s, chunks)
    ensures ChunksAgree(AddLeaf(s, v, h), chunks)
  {
    var s' := AddLeaf(s, v, h);
    forall layer: nat, c: nat | 0 < layer <= MAX_LAYER && c < CHUNKS && c !in s'[layer - 1].dirty
      ensures StoredChunk(chunks, layer, c) == Chunk(s'[layer - 1].tree, c)
    {
      AddLeafMarks(s, v, h, layer - 1);
      MarkedChunk(s[layer - 1], s'[layer - 1], c);
    }
  }

  // ----- save and load

  ghost predicate Loadable(r: Records) {
    && r.current.Some?
    && forall layer :: 0 < layer <= MAX_LAYER ==> BatchKey(layer, r.current.value.version) in r.commitments
  }

  /** The records of an account that was saved after the updates. */
  ghost predicate Saved(r: Records, u: Updates) {
    && Archived(r, u) && OnlyStarted(r, |u|)
    && Loadable(r)
    && StateAfter(Load(r), u)
    && ChunksAgree(Load(r).layers, r.chunks)
    && RootsSaved(r, |u| - 1)
  }

  ghost predicate RootsSaved(r: Records, version: nat) {
    forall layer :: 0 < layer <= MAX_LAYER ==> RootSaved(r, layer, version)
  }

  ghost predicate RootSaved(r: Records, layer: nat, version: nat)
    requires 0 < layer <= MAX_LAYER
  {
    BatchKey(layer, version) in r.roots && r.roots[BatchKey(layer, version)] == LoadTree(r.chunks, layer)[0]
  }

  /** What an account in memory and its records satisfy after the updates. */
  ghost predicate InMemory(a: AccountState, r: Records, u: Updates) {
    StateAfter(a, u) && Archived(r, u) && OnlyStarted(r, |u|) && ChunksAgree(a.layers, r.chunks)
  }

  lemma {:induction false} SaveArchive(a: AccountState, r: Records, u: Updates)
    requires StateAfter(a, u) && Archived(r, u)
    ensures Archived(Save(a, r), u)
  {
    forall layer, b | 0 < layer <= MAX_LAYER && 0 <= b && (b + 1) * BatchSize(layer) <= |u| - 1
      ensures BatchArchived(Save(a, r), layer, b, LeafHashes(u))
    {
      assert BatchArchived(r, layer, b, LeafHashes(u));
      SaveBatch(a, StoreAccount(a, r), u, layer, b);
    }
  }

  lemma {:induction false} SaveBatch(a: AccountState, r: Records, u: Updates, layer: nat, b: nat)
    requires StateAfter(a, u) && 0 < layer <= MAX_LAYER && (b + 1) * BatchSize(layer) <= |u| - 1
    requires BatchArchived(r, layer, b, LeafHashes(u))
    ensures BatchArchived(StoreBatches(r, |u| - 1, a.layers), layer, b, LeafHashes(u))
  {
    hide BatchSize, LeafHashes, StoreBatches;
    if b == (|u| - 2) / BatchSize(layer) {
      CompletedBatch(a, r, u, layer, b);
    } else {
      StoredAt(r, |u| - 1, a.layers, layer, b);
    }
  }

  /** Save followed by load gives back the same balance, trees and commitments. */
  lemma {:induction false} LoadAfterSave(a: AccountState, r: Records)
    requires a.current.Some? && ChunksAgree(a.layers, r.chunks)
    ensures Loadable(Save(a, r))
    ensures Load(Save(a, r)).current == a.current
    ensures forall i :: 0 <= i < MAX_LAYER ==>
              && Load(Save(a, r)).layers[i].tree == a.layers[i].tree
              && Load(Save(a, r)).layers[i].commit == a.layers[i].commit
  {
    hide LoadTree;
    var version := a.current.value.version;
    var r1 := r.(current := a.current, chunks := StoreTrees(r.chunks, a.layers));
    forall layer: nat | 0 < layer <= MAX_LAYER
      ensures BatchKey(layer, version) in Save(a, r).commitments
      ensures Save(a, r).commitments[BatchKey(layer, version)] == a.layers[layer - 1].commit
      ensures LoadTree(Save(a, r).chunks, layer) == a.layers[layer - 1].tree
    {
      StoredAt(r1, version, a.layers, layer, BatchKey(layer, version).1);
      LoadStoredTree(r.chunks, a.layers, layer);
    }
  }

  lemma {:induction false} SaveChunks(a: AccountState, r: Records)
    requires a.current.Some? && ChunksAgree(a.layers, r.chunks)
    ensures Loadable(Save(a, r)) && ChunksAgree(Load(Save(a, r)).layers, Save(a, r).chunks)
  {
    LoadAfterSave(a, r);
    var r' := Save(a, r);
    forall layer: nat, c: nat | 0 < layer <= MAX_LAYER && c < CHUNKS
      ensures StoredChunk(r'.chunks, layer, c) == Chunk(Load(r').layers[layer - 1].tree, c)
    {
      StoreTreesChunk(r.chunks, a.layers, layer, c);
    }
  }

  lemma {:induction false} SavedState(a: AccountState, r: Records, u: Updates)
    requires StateAfter(a, u) && ChunksAgree(a.layers, r.chunks)
    ensures Loadable(Save(a, r)) && StateAfter(Load(Save(a, r)), u)
  {
    LoadAfterSave(a, r);
    SaveState(a, Load(Save(a, r)), u);
  }

  lemma {:induction false} SaveSaves(a: AccountState, r: Records, u: Updates)
    requires InMemory(a, r, u)
    ensures Saved(Save(a, r), u)
  {
    hide KeyedCommitments, KeyedRoots, StoreTrees, LayerAfter, LeafHashes, BatchArchived, StartedKey;
    SaveArchive(a, r, u);
    StoreStarted(StoreAccount(a, r), |u| - 1, a.layers, |u|);
    SavedState(a, r, u);
    SaveChunks(a, r);
    SaveRoots(a, r, |u| - 1);
  }

  lemma {:induction false} SaveState(a: AccountState, b: AccountState, u: Updates)
    requires StateAfter(a, u) && a.current == b.current
    requires forall i :: 0 <= i < MAX_LAYER ==>
               a.layers[i].tree == b.layers[i].tree && a.layers[i].commit == b.layers[i].commit
    ensures StateAfter(b, u)
  {
    forall layer | 0 < layer <= MAX_LAYER ensures LayerAfter(b.layers, layer, u) {
      assert LayerAfter(a.layers, layer, u);
    }
  }

  lemma {:induction false} SaveRoots(a: AccountState, r: Records, version: nat)
    requires a.current.Some? && a.current.value.version == version && ChunksAgree(a.layers, r.chunks)
    ensures RootsSaved(Save(a, r), version)
  {
    forall layer | 0 < layer <= MAX_LAYER ensures RootSaved(Save(a, r), layer, version) {
      LoadStoredTree(r.chunks, a.layers, layer);
      StoredAt(StoreAccount(a, r), version, a.layers, layer, BatchKey(layer, version).1);
    }
  }

  lemma {:induction false} UpdateInMemory(a: AccountState, r: Records, u: Updates, x: BalanceUpdate)
    requires InMemory(a, r, u)
    ensures InMemory(UpdateAccount(a, x), UpdateRecords(a, r, x), u + [x])
  {
    UpdateState(a, u, x);
    UpdateArchive(a, r, u, x);
    UpdateStarted(a, r, u, x);
    UpdateChunks(a, r, x);
  }

  lemma {:induction false} FirstUpdateInMemory(x: BalanceUpdate)
    ensures InMemory(UpdateAccount(NewAccount(), x), UpdateRecords(NewAccount(), NO_RECORDS, x), [x])
  {
    FirstUpdateState(x);
    forall layer: nat, c: nat | 0 < layer <= MAX_LAYER && c < CHUNKS
      ensures StoredChunk(NO_RECORDS.chunks, layer, c) == Chunk(EmptyTree(), c)
    {
    }
  }
}
