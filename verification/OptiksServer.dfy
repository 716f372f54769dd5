/** The server of the key directory, updated in place, and its client (kt/optiks.go, ktbench/main.go). */
module OptiksObjects {
  import opened Primitives
  import opened Encodings
  import opened TrieKeys
  import opened Optiks

  /** An encoded trie node. */
  type Node = seq<Byte>

  type Proof = seq<Node>

  // ----- the common prefix of proofs

  predicate PrefixOfAll(prefix: Proof, proofs: seq<Proof>) {
    forall i :: 0 <= i < |proofs| ==> prefix <= proofs[i]
  }

  /** Every proof has more than i nodes, and the same one at i. */
  predicate AgreeAtNode(proofs: seq<Proof>, i: nat) {
    forall k :: 0 <= k < |proofs| ==> i < |proofs[0]| && i < |proofs[k]| && proofs[k][i] == proofs[0][i]
  }

  method NodesEqual(proofs: seq<Proof>, i: nat) returns (allEqual: bool)
    requires proofs != [] && forall k :: 0 <= k < |proofs| ==> i < |proofs[k]|
    ensures allEqual <==> AgreeAtNode(proofs, i)
  {
    for j := 1 to |proofs|
      invariant forall k :: 0 <= k < j && k < |proofs| ==> proofs[k][i] == proofs[0][i]
    {
      if proofs[j][i] != proofs[0][i] {
        return false;
      }
    }
    return true;
  }

  lemma {:induction false} PrefixGrows(proofs: seq<Proof>, n: nat)
    requires proofs != [] && AgreeAtNode(proofs, n) && PrefixOfAll(proofs[0][..n], proofs)
    ensures PrefixOfAll(proofs[0][..n + 1], proofs)
  {
    forall i | 0 <= i < |proofs| ensures proofs[0][..n + 1] <= proofs[i] {
      assert proofs[0][..n + 1] == proofs[0][..n] + [proofs[0][n]];
      assert proofs[i][..n] == proofs[0][..n];
    }
  }

  /** A common prefix ends where the proofs differ or one of them ends. */
  lemma {:induction false} PrefixStops(proofs: seq<Proof>, n: nat, longer: Proof)
    requires proofs != [] && n <= |proofs[0]| && !AgreeAtNode(proofs, n) && PrefixOfAll(longer, proofs)
    ensures longer <= proofs[0][..n]
  {
    assert longer <= proofs[0];
    if |longer| > n {
      forall k | 0 <= k < |proofs| ensures n < |proofs[0]| && n < |proofs[k]| && proofs[k][n] == proofs[0][n] {
        assert longer <= proofs[k];
        assert longer[n] == proofs[k][n] == proofs[0][n];
      }
    }
  }

  /** The prefix is common to all proofs, and every common prefix of them is a prefix of it. */
  ghost predicate LongestPrefix(prefix: Proof, proofs: seq<Proof>) {
    PrefixOfAll(prefix, proofs) && forall other: Proof :: PrefixOfAll(other, proofs) ==> other <= prefix
  }

  /** The longest common prefix. */
  method ComputeCommonProofPrefix(proofs: seq<Proof>) returns (prefix: Proof)
    ensures if proofs == [] then prefix == [] else LongestPrefix(prefix, proofs)
  {
    if proofs == [] {
      return [];
    }
    var minLen, shortest := |proofs[0]|, 0;
    for j := 1 to |proofs|
      invariant 0 <= shortest < |proofs| && minLen == |proofs[shortest]|
      invariant forall k :: 0 <= k < j ==> minLen <= |proofs[k]|
    {
      if |proofs[j]| < minLen {
        minLen, shortest := |proofs[j]|, j;
      }
    }
    var prefixLen := 0;
    while prefixLen < minLen
      invariant prefixLen <= minLen && PrefixOfAll(proofs[0][..prefixLen], proofs)
    {
      var allEqual := NodesEqual(proofs, prefixLen);
      if !allEqual {
        break;
      }
      PrefixGrows(proofs, prefixLen);
      prefixLen := prefixLen + 1;
    }
    assert !AgreeAtNode(proofs, prefixLen);
    prefix := proofs[0][..prefixLen];
    forall longer | PrefixOfAll(longer, proofs) ensures longer <= prefix {
      PrefixStops(proofs, prefixLen, longer);
    }
  }

  /** Putting the common prefix back in front (prependPrefix). */
  function PrependPrefix(prefix: Proof, suffix: Proof): Proof {
    if prefix == [] then suffix else prefix + suffix
  }

  lemma {:induction false} StripThenPrepend(prefix: Proof, proof: Proof)
    requires prefix <= proof
    ensures PrependPrefix(prefix, proof[|prefix|..]) == proof
  {
  }

  method StripPrefix(prefix: Proof, proofs: seq<Proof>) returns (first: Proof, others: seq<Proof>)
    requires proofs != [] && PrefixOfAll(prefix, proofs)
    ensures PrependPrefix(prefix, first) == proofs[0] && |others| == |proofs| - 1
    ensures forall i :: 0 <= i < |others| ==> PrependPrefix(prefix, others[i]) == proofs[i + 1]
  {
    hide PrependPrefix;
    assert prefix <= proofs[0];
    first := proofs[0][|prefix|..];
    StripThenPrepend(prefix, proofs[0]);
    others := [];
    for i := 0 to |proofs| - 1
      invariant |others| == i && forall j :: 0 <= j < i ==> PrependPrefix(prefix, others[j]) == proofs[j + 1]
    {
      assert prefix <= proofs[i + 1];
      StripThenPrepend(prefix, proofs[i + 1]);
      others := others + [proofs[i + 1][|prefix|..]];
    }
  }

  // ----- replies

  datatype QueryResult = QueryResult(
    value: Option<Bytes>,
    currentVersion: nat,
    nextVersionNonMembershipProof: Proof,
    versionProofs: seq<Proof>,
    currentVersionEpoch: nat,
    oldVersions: seq<Bytes>,
    oldVersionEpochs: seq<nat>,
    commonProofPrefix: Proof)
  {
    /** Old keys followed by the current one. */
    function AllKeys(): seq<Bytes> {
      oldVersions + if value.Some? then [value.value] else []
    }

    function AllEpochs(): seq<nat> {
      oldVersionEpochs + if value.Some? then [currentVersionEpoch] else []
    }

    function FullProof(i: nat): Proof
      requires i < |versionProofs|
    {
      PrependPrefix(commonProofPrefix, versionProofs[i])
    }

    function FullNonMembershipProof(): Proof {
      PrependPrefix(commonProofPrefix, nextVersionNonMembershipProof)
    }

    /** All proofs of the reply in full. */
    function FullProofs(): seq<Proof> {
      [FullNonMembershipProof()] + seq(|versionProofs|, i requires 0 <= i < |versionProofs| => FullProof(i))
    }
  }

  datatype Verdict = Failed | Proved(value: Option<Bytes>)

  /** How a trie proves and how a proof is checked against a root. */
  datatype TrieScheme = TrieScheme(prove: (Trie, seq<Byte>) -> Proof, verify: (Trie, seq<Byte>, Proof) -> Verdict)

  function Lookup(trie: Trie, key: seq<Byte>): Option<Bytes> {
    if key in trie then Some(trie[key]) else None
  }

  /** Proofs of the trie are accepted, and whatever is accepted is so. */
  ghost predicate Ideal(scheme: TrieScheme) {
    forall trie: Trie, key: seq<Byte>, proof: Proof :: Faithful(scheme, trie, key, proof)
  }

  ghost predicate Faithful(scheme: TrieScheme, trie: Trie, key: seq<Byte>, proof: Proof) {
    && scheme.verify(trie, key, proof) in {Failed, Proved(Lookup(trie, key))}
    && (proof == scheme.prove(trie, key) ==> scheme.verify(trie, key, proof) == Proved(Lookup(trie, key)))
  }

  /** The proofs of a reply, with the prefix restored, are those of the trie for versions 1..n and n + 1. */
  ghost predicate ProofsFor(r: QueryResult, scheme: TrieScheme, trie: Trie, u: User)
    requires Fits(u)
  {
    && r.FullNonMembershipProof() == scheme.prove(trie, MakeTrieKey(u, r.currentVersion + 1))
    && |r.versionProofs| == r.currentVersion
    && forall i :: 0 <= i < |r.versionProofs| ==> r.FullProof(i) == scheme.prove(trie, MakeTrieKey(u, i + 1))
  }

  /** The reply tells the history of the user. */
  ghost predicate Tells(r: QueryResult, h: Log, useCaching: bool) {
    var n := |h|;
    && r.currentVersion == n
    && r.value == (if h == [] then None else Some(h[n - 1].pair.key))
    && r.currentVersionEpoch == (if h == [] then 0 else h[n - 1].epoch)
    && (useCaching ==> r.oldVersions == [] && r.oldVersionEpochs == [])
    && (!useCaching ==> r.AllKeys() == Keys(h) && r.AllEpochs() == Epochs(h))
  }

  lemma {:induction false} TellsAll(h: Log)
    requires h != []
    ensures Keys(h) == Keys(h[..|h| - 1]) + [h[|h| - 1].pair.key]
    ensures Epochs(h) == Epochs(h[..|h| - 1]) + [h[|h| - 1].epoch]
  {
  }

  /** The trie's proofs for version n + 1 and for versions 1..n of a user. */
  function ProofList(scheme: TrieScheme, trie: Trie, u: User, n: nat): (proofs: seq<Proof>)
    requires Fits(u)
    ensures |proofs| == n + 1
  {
    seq(n + 1, i requires 0 <= i <= n => scheme.prove(trie, MakeTrieKey(u, if i == 0 then n + 1 else i)))
  }

  lemma {:induction false} ProofsRestored(r: QueryResult, scheme: TrieScheme, trie: Trie, u: User, n: nat)
    requires Fits(u) && r.currentVersion == |r.versionProofs| == n
    requires r.FullNonMembershipProof() == ProofList(scheme, trie, u, n)[0]
    requires forall i :: 0 <= i < n ==> r.FullProof(i) == ProofList(scheme, trie, u, n)[i + 1]
    ensures r.FullProofs() == ProofList(scheme, trie, u, n) && ProofsFor(r, scheme, trie, u)
  {
    hide MakeTrieKey;
    forall i | 0 <= i < n ensures r.FullProof(i) == scheme.prove(trie, MakeTrieKey(u, i + 1)) {
      assert ProofList(scheme, trie, u, n)[i + 1] == scheme.prove(trie, MakeTrieKey(u, i + 1));
    }
  }

  class OptiksServer {
    const scheme: TrieScheme
    const batchSize: nat
    var updateBuffer: seq<KVPair>
    var rootCommitment: Trie
    var rootCommitmentIsDirty: bool
    var mpt: Trie
    var currentVersions: map<User, nat>
    var currentKey: map<User, Bytes>
    var currentEpoch: map<User, nat>
    var oldKeys: map<User, seq<Bytes>>
    var oldEpochs: map<User, seq<nat>>
    var epoch: nat
    /** All pairs put so far. */
    ghost var submitted: seq<KVPair>
    /** Those that have been applied. */
    ghost var log: Log

    ghost function State(): Tables
      reads `currentVersions, `currentKey, `currentEpoch, `oldKeys, `oldEpochs
    {
      Tables(currentVersions, currentKey, currentEpoch, oldKeys, oldEpochs)
    }

    ghost predicate Valid()
      reads this
    {
      && Accounted(submitted, log, updateBuffer)
      && Consistent(State(), log, epoch)
      && mpt == rootCommitment == TrieAfter(log)
      && (rootCommitmentIsDirty <==> updateBuffer != [])
    }

    constructor (scheme: TrieScheme, batchSize: nat)
      ensures Valid() && submitted == [] && log == [] && epoch == 0 && this.scheme == scheme && this.batchSize == batchSize
    {
      this.scheme, this.batchSize := scheme, batchSize;
      updateBuffer, rootCommitmentIsDirty, mpt, rootCommitment, epoch := [], false, map[], map[], 0;
      currentVersions, currentKey, currentEpoch, oldKeys, oldEpochs := map[], map[], map[], map[], map[];
      submitted, log := [], [];
    }

    /** Archive the key that is about to be overwritten, with its epoch. */
    method Archive(u: User)
      requires u in currentKey ==> u in currentEpoch
      modifies `oldKeys, `oldEpochs
      ensures oldKeys == if u in currentKey then old(oldKeys[u := State().OldKeys(u) + [currentKey[u]]]) else old(oldKeys)
      ensures oldEpochs ==
              if u in currentKey then old(oldEpochs[u := State().OldEpochs(u) + [currentEpoch[u]]]) else old(oldEpochs)
    {
      if u in currentKey {
        var keys := if u in oldKeys then oldKeys[u] else [];
        var epochs := if u in oldEpochs then oldEpochs[u] else [];
        oldKeys := oldKeys[u := keys + [currentKey[u]]];
        oldEpochs := oldEpochs[u := epochs + [currentEpoch[u]]];
      }
    }

    /** One buffered pair: the tables, and the update for the trie. */
    method ApplyPair(pair: KVPair, ghost h: Log) returns (account: seq<Byte>, value: Bytes)
      requires Fits(pair.user) && Describes(State(), pair.user, h)
      modifies `currentVersions, `currentKey, `currentEpoch, `oldKeys, `oldEpochs
      ensures State() == Record(old(State()), Applied(pair, epoch))
      ensures account == MakeTrieKey(pair.user, |h| + 1)
      ensures value == LeafValue(Applied(pair, epoch))
    {
      var u := pair.user;
      var ver := if u in currentVersions then currentVersions[u] + 1 else 1;
      Archive(u);
      currentKey := currentKey[u := pair.key];
      currentEpoch := currentEpoch[u := epoch];
      currentVersions := currentVersions[u := ver];
      account := MakeTrieKey(u, ver);
      value := BigEndian(epoch, 8) + pair.key;
    }

    /** The first loop of applyUpdates: the tables, and the updates for the trie in order. */
    method ApplyPairs() returns (updates: seq<TrieUpdate>)
      requires Accounted(submitted, log, updateBuffer) && 1 <= epoch && Consistent(State(), log, epoch)
      modifies `currentVersions, `currentKey, `currentEpoch, `oldKeys, `oldEpochs, `log
      ensures log == old(log) + Tagged(updateBuffer, epoch) && Consistent(State(), log, epoch)
      ensures Accounted(submitted, log, [])
      ensures old(AllFit(Pairs(log))) && ApplyAll(TrieAfter(old(log)), updates) == TrieAfter(log)
    {
      ghost var before := log;
      FlushAccounted(submitted, log, updateBuffer, epoch);
      updates := [];
      for i := 0 to |updateBuffer|
        invariant log == before + Tagged(updateBuffer[..i], epoch)
        invariant Consistent(State(), log, epoch)
        invariant ApplyAll(TrieAfter(before), updates) == TrieAfter(log)
      {
        TaggedNext(before, updateBuffer, epoch, i);
        var u := ApplyAndLog(updateBuffer[i]);
        ApplyOneMore(TrieAfter(before), updates, u);
        updates := updates + [u];
      }
      assert updateBuffer[..|updateBuffer|] == updateBuffer;
    }

    /** One round of it. */
    method ApplyAndLog(pair: KVPair) returns (u: TrieUpdate)
      requires Fits(pair.user) && 1 <= epoch && Consistent(State(), log, epoch)
      modifies `currentVersions, `currentKey, `currentEpoch, `oldKeys, `oldEpochs, `log
      ensures log == old(log) + [Applied(pair, epoch)] && Consistent(State(), log, epoch)
      ensures old(AllFit(Pairs(log))) && TrieAfter(log) == TrieAfter(old(log))[u.account := u.value]
    {
      ghost var a := Applied(pair, epoch);
      ghost var t, l := Record(State(), a), log + [a];
      assert DescribesUser(State(), log, pair.user);
      RecordConsistent(State(), log, a, t, l);
      var account, value := ApplyPair(pair, History(log, pair.user));
      u := TrieUpdate(account, value);
      log := l;
      assert State() == t;
    }

    /** Flush the buffer: all its pairs are applied in order, at the next epoch. */
    method ApplyUpdates()
      requires Valid()
      modifies this
      ensures Valid() && submitted == old(submitted) && updateBuffer == []
      ensures epoch == old(epoch) + 1 && log == old(log) + Tagged(old(updateBuffer), epoch)
    {
      NextEpoch(State(), log, epoch);
      rootCommitmentIsDirty := false;
      epoch := epoch + 1;
      FlushBuffer();
      rootCommitment := mpt;
    }

    /** Both loops: the tables, the buffer and the trie. */
    method FlushBuffer()
      requires Accounted(submitted, log, updateBuffer) && 1 <= epoch
      requires Consistent(State(), log, epoch) && mpt == TrieAfter(log)
      modifies `currentVersions, `currentKey, `currentEpoch, `oldKeys, `oldEpochs, `log, `updateBuffer, `mpt
      ensures log == old(log) + Tagged(old(updateBuffer), epoch) && Consistent(State(), log, epoch)
      ensures mpt == TrieAfter(log) && updateBuffer == [] && Accounted(submitted, log, [])
    {
      var updates := ApplyPairs();
      updateBuffer := [];
      ApplyToTrie(updates);
    }

    method ApplyToTrie(updates: seq<TrieUpdate>)
      modifies `mpt
      ensures mpt == ApplyAll(old(mpt), updates)
    {
      for i := 0 to |updates|
        invariant mpt == ApplyAll(old(mpt), updates[..i])
      {
        assert updates[..i + 1][..i] == updates[..i];
        mpt := mpt[updates[i].account := updates[i].value];
      }
      assert updates[..|updates|] == updates;
    }

    /** Buffer a pair; a full buffer is flushed. */
    method Put(user: User, key: Bytes)
      requires Valid() && Fits(user)
      modifies this
      ensures Valid() && submitted == old(submitted) + [KVPair(user, key)]
      ensures if 0 < batchSize <= |old(updateBuffer)| + 1 then updateBuffer == [] && epoch == old(epoch) + 1
              else updateBuffer == old(updateBuffer) + [KVPair(user, key)] && log == old(log) && epoch == old(epoch)
    {
      updateBuffer := updateBuffer + [KVPair(user, key)];
      submitted := submitted + [KVPair(user, key)];
      rootCommitmentIsDirty := true;
      if batchSize > 0 && |updateBuffer| >= batchSize {
        ApplyUpdates();
      }
    }

    /** The root of the trie after all puts so far. */
    method GetCommitment() returns (root: Trie)
      requires Valid()
      modifies this
      ensures Valid() && submitted == old(submitted) && Pairs(log) == submitted && root == TrieAfter(log)
      ensures epoch == old(epoch) + if old(updateBuffer) == [] then 0 else 1
      ensures log == old(log) + Tagged(old(updateBuffer), epoch)
    {
      if rootCommitmentIsDirty {
        ApplyUpdates();
      }
      root := rootCommitment;
    }

    method ListProofs(user: User, n: nat) returns (all: seq<Proof>)
      requires Fits(user)
      ensures all == ProofList(scheme, mpt, user, n)
    {
      hide MakeTrieKey;
      all := [scheme.prove(mpt, MakeTrieKey(user, n + 1))];
      for i := 1 to n + 1
        invariant |all| == i && forall j :: 0 <= j < i ==> all[j] == ProofList(scheme, mpt, user, n)[j]
      {
        all := all + [scheme.prove(mpt, MakeTrieKey(user, i))];
      }
    }

    /** The proofs for versions 1..n and n + 1, without their longest common prefix. */
    method ProveVersions(user: User, n: nat) returns (prefix: Proof, nonMembership: Proof, versionProofs: seq<Proof>)
      requires Fits(user)
      ensures PrependPrefix(prefix, nonMembership) == ProofList(scheme, mpt, user, n)[0]
      ensures |versionProofs| == n
      ensures forall i :: 0 <= i < n ==> PrependPrefix(prefix, versionProofs[i]) == ProofList(scheme, mpt, user, n)[i + 1]
      ensures LongestPrefix(prefix, ProofList(scheme, mpt, user, n))
    {
      hide MakeTrieKey, ProofList, PrependPrefix;
      var all := ListProofs(user, n);
      prefix := ComputeCommonProofPrefix(all);
      nonMembership, versionProofs := StripPrefix(prefix, all);
    }

    /** The reply for a user, from tables and trie that are up to date. */
    method GetResult(user: User, useCaching: bool, ghost h: Log) returns (r: QueryResult)
      requires Describes(State(), user, h) && Fits(user)
      ensures Tells(r, h, useCaching) && ProofsFor(r, scheme, mpt, user)
      ensures LongestPrefix(r.commonProofPrefix, r.FullProofs())
    {
      hide MakeTrieKey, ProofsFor, LongestPrefix;
      if h != [] {
        TellsAll(h);
      }
      var n := if user in currentVersions then currentVersions[user] else 0;
      var prefix, nonMembership, versionProofs := ProveVersions(user, n);
      r := QueryResult(
        if user in currentKey then Some(currentKey[user]) else None,
        n,
        nonMembership,
        versionProofs,
        if user in currentEpoch then currentEpoch[user] else 0,
        if !useCaching && user in oldKeys then oldKeys[user] else [],
        if !useCaching && user in oldEpochs then oldEpochs[user] else [],
        prefix);
      ProofsRestored(r, scheme, mpt, user, n);
    }

    /** The current and old keys of a user: exactly the keys put for it, in order, whatever the batch size
        and whatever calls came in between; with the proofs of the trie. */
    method Get(user: User, useCaching: bool) returns (r: QueryResult)
      requires Valid() && Fits(user)
      modifies this
      ensures Valid() && submitted == old(submitted) && Pairs(log) == submitted
      ensures epoch == old(epoch) + if old(updateBuffer) == [] then 0 else 1
      ensures log == old(log) + Tagged(old(updateBuffer), epoch)
      ensures Tells(r, History(log, user), useCaching) && ProofsFor(r, scheme, rootCommitment, user)
      ensures r.currentVersion == |KeysPut(submitted, user)|
      ensures !useCaching ==> r.AllKeys() == KeysPut(submitted, user)
      ensures LongestPrefix(r.commonProofPrefix, r.FullProofs())
    {
      if rootCommitmentIsDirty {
        ApplyUpdates();
      }
      assert DescribesUser(State(), log, user);
      HistoryKeys(log, user);
      r := GetResult(user, useCaching, History(log, user));
    }
  }
}
