/** What the client's trees say about balances listed in any order (rebuildverify.go). */
module Listed {
  import opened Primitives
  import opened Heap
  import opened Layers
  import opened SegmentTree
  import opened RangeCover
  import opened Dependencies
  import opened Rebuild
  import opened VerifierTrees

  // ----- every hash is made of listed balances

  /** Every balance that is hashed into h is listed. */
  predicate OnlyListed(h: Hash, balances: seq<HistoricalBalance>) {
    match h
    case BalanceHash(hb) => hb in balances
    case PairHash(left, right) => OnlyListed(left, balances) && OnlyListed(right, balances)
    case CurrentHash(_) => true
    case CommitmentHash(_) => true
  }

  predicate ListedAt(t: HashVector, i: nat, balances: seq<HistoricalBalance>)
    requires i < |t|
  {
    t[i].Some? ==> OnlyListed(t[i].value, balances)
  }

  predicate TreeListed(t: HashVector, balances: seq<HistoricalBalance>) {
    forall i :: 0 <= i < |t| ==> ListedAt(t, i, balances)
  }

  lemma {:induction false} SetListed(t: HashVector, i: nat, value: Option<Hash>, balances: seq<HistoricalBalance>)
    requires TreeListed(t, balances) && i < |t| && (value.Some? ==> OnlyListed(value.value, balances))
    ensures TreeListed(t[i := value], balances)
  {
    var t' := t[i := value];
    forall k | 0 <= k < |t| ensures ListedAt(t', k, balances) {
      assert ListedAt(t, k, balances);
    }
  }

  lemma {:induction false} ClimbListed(t: HashVector, i: nat, balances: seq<HistoricalBalance>)
    requires i + 1 < |t| && TreeListed(t, balances)
    ensures TreeListed(Climb(t, i), balances)
    decreases i
  {
    if i > 0 {
      var p := Parent(i);
      var h := Combine(t[2 * p + 1], t[2 * p + 2]);
      assert ListedAt(t, 2 * p + 1, balances) && ListedAt(t, 2 * p + 2, balances);
      if h != None {
        SetListed(t, p, h, balances);
        ClimbListed(t[p := h], p, balances);
      }
    }
  }

  lemma {:induction false} InsertListed(t: HashVector, i: nat, value: Option<Hash>, balances: seq<HistoricalBalance>)
    requires i + 1 < |t| && TreeListed(t, balances) && (value.Some? ==> OnlyListed(value.value, balances))
    ensures TreeListed(Insert(t, i, value), balances)
  {
    if value != None {
      SetListed(t, i, value, balances);
      ClimbListed(t[i := value], i, balances);
    }
  }

  ghost predicate StackListed(s: TreeStack, balances: seq<HistoricalBalance>) {
    forall l :: 0 <= l < MAX_LAYER ==> TreeListed(s[l], balances)
  }

  lemma {:induction false} LayersListed(s: TreeStack, layer: nat, v: nat, h: Hash, balances: seq<HistoricalBalance>)
    requires layer <= MAX_LAYER && StackListed(s, balances) && OnlyListed(h, balances)
    ensures StackListed(BareLayers(s, layer, v, h), balances)
  {
    hide OnlyListed, TreeListed, Insert, BatchSize;
    if layer > 0 {
      var below := BareLayers(s, layer - 1, v, h);
      var value := if layer == 1 then Some(h) else below[layer - 2][0];
      LayersListed(s, layer - 1, v, h, balances);
      if layer > 1 {
        TreeListedAt(below[layer - 2], 0, balances);
      }
      ResetListed(s[layer - 1], layer, v, balances);
      InsertListed(BareReset(s[layer - 1], layer, v), LeafOffset(layer, v), value, balances);
    }
  }

  lemma {:induction false} TreeListedAt(t: HashVector, i: nat, balances: seq<HistoricalBalance>)
    requires TreeListed(t, balances) && i < |t|
    ensures t[i].Some? ==> OnlyListed(t[i].value, balances)
  {
    assert ListedAt(t, i, balances);
  }

  lemma {:induction false} ResetListed(t: HashVector, layer: nat, v: nat, balances: seq<HistoricalBalance>)
    requires 0 < layer <= MAX_LAYER && TreeListed(t, balances)
    ensures TreeListed(BareReset(t, layer, v), balances)
  {
  }

  /** Whatever is listed, in any order: the client's trees are made of the listed balances. */
  lemma {:induction false} ReplayListed(balances: seq<HistoricalBalance>, n: nat)
    requires n <= |balances|
    ensures StackListed(Stack(balances, n), balances)
  {
    hide BareLayers, TreeListed;
    if n == 0 {
      EmptyListed(balances);
    } else {
      ReplayListed(balances, n - 1);
      LayersListed(Stack(balances, n - 1), MAX_LAYER, balances[n - 1].current.version, BalanceHash(balances[n - 1]), balances);
    }
  }

  lemma {:induction false} EmptyListed(balances: seq<HistoricalBalance>)
    ensures TreeListed(EmptyTree(), balances)
  {
  }

  // ----- a node made of listed balances

  lemma {:induction false} MerkleListed(leaves: HashVector, i: nat, j: nat, balances: seq<HistoricalBalance>)
    requires i < 2 * |leaves| - 1 && j < |leaves| && LeafBelow(|leaves|, i, j)
    requires Merkle(leaves, i).Some? && OnlyListed(Merkle(leaves, i).value, balances)
    ensures leaves[j].Some? && OnlyListed(leaves[j].value, balances)
    decreases 2 * |leaves| - i
  {
    var n := |leaves|;
    if i >= n - 1 {
      LeafBelowSelf(n, i);
    } else {
      LeafBelowChildren(n, i);
      var child := if LeafBelow(n, 2 * i + 1, j) then 2 * i + 1 else 2 * i + 2;
      MerkleListed(leaves, child, j, balances);
    }
  }

  lemma {:induction false} RootListed(layer: nat, b: nat, m: Versions, v: nat, balances: seq<HistoricalBalance>)
    requires layer <= MAX_LAYER && InBatch(layer, b, v)
    requires Root(layer, b, m).Some? && OnlyListed(Root(layer, b, m).value, balances)
    ensures v in m && OnlyListed(m[v], balances)
    decreases layer
  {
    hide Arity, BatchSize, OnlyListed, Merkle, LeafBelow;
    if layer == 0 {
      OneVersion(b, v);
    } else {
      var j := LeafIndex(layer, b, v);
      LeafIsRoot(layer, b, m, j);
      MerkleListed(Leaves(layer, b, m), 0, j, balances);
      RootListed(layer - 1, b * Arity(layer) + j, m, v, balances);
    }
  }

  /** If a node of a batch tree is made of listed balances, so is every version beneath it. */
  lemma {:induction false} NodeListed(layer: nat, b: nat, i: nat, m: Versions, v: nat, balances: seq<HistoricalBalance>)
    requires 0 < layer <= MAX_LAYER && i < 2 * Arity(layer) - 1 && Beneath(layer, b, i, v)
    requires Merkle(Leaves(layer, b, m), i).Some? && OnlyListed(Merkle(Leaves(layer, b, m), i).value, balances)
    ensures v in m && OnlyListed(m[v], balances)
  {
    var j := LeafIndex(layer, b, v);
    MerkleListed(Leaves(layer, b, m), i, j, balances);
    RootListed(layer - 1, b * Arity(layer) + j, m, v, balances);
  }

  // ----- the first version listed more than once

  predicate AllOfVersion(balances: seq<HistoricalBalance>, v: nat) {
    forall i :: 0 <= i < |balances| ==> balances[i].current.version == v
  }

  lemma {:induction false} AgainLayer(s: TreeStack, below: TreeStack, layer: nat, v: nat, x: Hash, h: Hash)
    requires 0 < layer <= MAX_LAYER && BareHolds(s, v, map[v := x])
    requires below == BareLayers(s, layer - 1, v, h) && BareUpTo(below, layer - 1, v, map[v := h])
    ensures BareUpTo(BareLayers(s, layer, v, h), layer, v, map[v := h])
  {
    hide BatchSize, BareTree, Insert, BareHolds;
    var value := if layer == 1 then Some(h) else below[layer - 2][0];
    var before: Versions := if v % BatchSize(layer) == 0 then map[] else map[v := x];
    EmptyBatch(layer, v / BatchSize(layer), map[]);
    TreeHolds(s, v, map[v := x], layer - 1);
    BareHands(below, layer, v, h, map[v := h], value);
    assert before[v := h] == map[v := h];
    BareInsert(BareReset(s[layer - 1], layer, v), layer, v, h, before, value);
    BareMoreLayer(below, BareLayers(s, layer, v, h), layer, v, map[v := h]);
  }

  lemma {:induction false} AgainLayers(s: TreeStack, layer: nat, v: nat, x: Hash, h: Hash)
    requires layer <= MAX_LAYER && BareHolds(s, v, map[v := x])
    ensures BareUpTo(BareLayers(s, layer, v, h), layer, v, map[v := h])
  {
    hide BatchSize, BareTree, Insert, BareHolds;
    if layer > 0 {
      var below := BareLayers(s, layer - 1, v, h);
      AgainLayers(s, layer - 1, v, x, h);
      AgainLayer(s, below, layer, v, x, h);
    }
  }

  /** Of balances that are all of one version the trees hold the last. */
  lemma {:induction false} LastHolds(balances: seq<HistoricalBalance>, v: nat, n: nat)
    requires 0 < n <= |balances| && AllOfVersion(balances[..n], v)
    ensures BareHolds(Stack(balances, n), v, map[v := BalanceHash(balances[n - 1])])
  {
    hide BareLayers, BareTree, BatchSize;
    var h := BalanceHash(balances[n - 1]);
    assert balances[..n][n - 1].current.version == v;
    if n == 1 {
      EmptyFollows(v);
      assert map[][v := h] == map[v := h];
      AddBareLeafHolds(EmptyStack(), v, h, map[]);
    } else {
      assert balances[..n][..n - 1] == balances[..n - 1];
      LastHolds(balances, v, n - 1);
      AgainLayers(Stack(balances, n - 1), MAX_LAYER, v, BalanceHash(balances[n - 2]), h);
    }
  }

  lemma {:induction false} HoldsUnique(s: TreeStack, s': TreeStack, v: nat, m: Versions)
    requires BareHolds(s, v, m) && BareHolds(s', v, m)
    ensures s == s'
  {
    forall i: nat | i < MAX_LAYER ensures s[i] == s'[i] {
      TreeHolds(s, v, m, i);
      TreeHolds(s', v, m, i);
    }
  }

  lemma {:induction false} TreeHolds(s: TreeStack, v: nat, m: Versions, i: nat)
    requires i < MAX_LAYER && BareHolds(s, v, m)
    ensures s[i] == BareTree(i + 1, v / BatchSize(i + 1), m)
  {
    hide BatchSize, BareTree;
    var layer := i + 1;
    assert s[layer - 1] == BareTree(layer, v / BatchSize(layer), m);
  }

  lemma {:induction false} SameStack(extra: seq<HistoricalBalance>, rest: seq<HistoricalBalance>, v: nat, n: nat)
    requires 0 < n <= |rest| && AllOfVersion(extra, v) && rest[0].current.version == v
    ensures Stack(extra + rest, |extra| + n) == Stack(rest, n)
  {
    hide BareHolds;
    var all := extra + rest;
    if n == 1 {
      assert all[..|extra| + 1] == extra + [rest[0]];
      LastHolds(all, v, |extra| + 1);
      LastHolds(rest, v, 1);
      HoldsUnique(Stack(all, |extra| + 1), Stack(rest, 1), v, map[v := BalanceHash(rest[0])]);
    } else {
      SameStack(extra, rest, v, n - 1);
      assert all[|extra| + n - 1] == rest[n - 1];
    }
  }

  lemma {:induction false} SameTime(extra: seq<HistoricalBalance>, rest: seq<HistoricalBalance>, v: nat, k: Key, n: nat)
    requires 0 < n <= |rest| && AllOfVersion(extra, v) && rest[0].current.version == v
    ensures CopyTime(extra + rest, k, |extra| + n) == if CopyTime(rest, k, n) > 0 then |extra| + CopyTime(rest, k, n) else 0
  {
    hide InBatch;
    var all := extra + rest;
    assert all[|extra| + n - 1] == rest[n - 1];
    assert CopiedAt(all, k, |extra| + n - 1) <==> CopiedAt(rest, k, n - 1);
    if n > 1 {
      SameTime(extra, rest, v, k, n - 1);
    } else if !CopiedAt(rest, k, 0) {
      NotEarlier(extra, rest, v, k);
    }
  }

  lemma {:induction false} NotEarlier(extra: seq<HistoricalBalance>, rest: seq<HistoricalBalance>, v: nat, k: Key)
    requires rest != [] && AllOfVersion(extra, v) && rest[0].current.version == v && !CopiedAt(rest, k, 0)
    ensures CopyTime(extra + rest, k, |extra|) == 0
  {
    hide InBatch;
    forall i | 0 <= i < |extra| ensures !CopiedAt(extra + rest, k, i) {
      assert (extra + rest)[i] == extra[i];
    }
  }

  /** Of several balances of the first version only the last one counts: the others leave no trace in the
      client's trees. */
  lemma {:induction false} RepeatedFirst(res: CommitmentMap, extra: seq<HistoricalBalance>, rest: seq<HistoricalBalance>, v: nat)
    requires rest != [] && AllOfVersion(extra, v) && rest[0].current.version == v
    ensures ListTrees(res, extra + rest) == ListTrees(res, rest)
  {
    hide Stack, CopiedAt;
    var all := extra + rest;
    assert |all| == |extra| + |rest|;
    forall k: Key ensures CopyTime(all, k, |all|) > 0 <==> CopyTime(rest, k, |rest|) > 0
      ensures CopyTime(rest, k, |rest|) > 0 ==> Stack(all, CopyTime(all, k, |all|)) == Stack(rest, CopyTime(rest, k, |rest|))
    {
      SameTime(extra, rest, v, k, |rest|);
      if CopyTime(rest, k, |rest|) > 0 {
        SameStack(extra, rest, v, CopyTime(rest, k, |rest|));
      }
    }
  }
}
