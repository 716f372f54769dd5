/** The versioned key directory: what its state means, and its trie (kt/optiks.go). */
module Optiks {
  import opened Primitives
  import opened Encodings
  import opened TrieKeys

  type Bytes = seq<Byte>

  datatype KVPair = KVPair(user: User, key: Bytes)

  /** An update that has been applied, with its epoch. */
  datatype Applied = Applied(pair: KVPair, epoch: nat)

  /** Contents of a trie.  Root hashes bind them, so a trie also stands for its root. */
  type Trie = map<seq<Byte>, Bytes>

  type Log = seq<Applied>

  predicate AllFit(pairs: seq<KVPair>) {
    forall i :: 0 <= i < |pairs| ==> Fits(pairs[i].user)
  }

  function Pairs(log: Log): (p: seq<KVPair>)
    ensures |p| == |log| && forall i :: 0 <= i < |log| ==> p[i] == log[i].pair
  {
    seq(|log|, i requires 0 <= i < |log| => log[i].pair)
  }

  // ----- the history of a user

  /** The updates of one user, in order. */
  function History(log: Log, u: User): (h: Log)
    ensures |h| <= |log|
  {
    if log == [] then []
    else
      var last := log[|log| - 1];
      var before := History(log[..|log| - 1], u);
      if last.pair.user == u then before + [last] else before
  }

  lemma {:induction false} HistoryAppend(log: Log, a: Applied, u: User)
    ensures History(log + [a], u) == if a.pair.user == u then History(log, u) + [a] else History(log, u)
  {
    assert (log + [a])[..|log|] == log;
  }

  function Keys(h: Log): (k: seq<Bytes>)
    ensures |k| == |h|
  {
    seq(|h|, i requires 0 <= i < |h| => h[i].pair.key)
  }

  function Epochs(h: Log): (e: seq<nat>)
    ensures |e| == |h|
  {
    seq(|h|, i requires 0 <= i < |h| => h[i].epoch)
  }

  /** The keys that were put for one user, in order. */
  function KeysPut(pairs: seq<KVPair>, u: User): seq<Bytes> {
    if pairs == [] then []
    else
      var last := pairs[|pairs| - 1];
      KeysPut(pairs[..|pairs| - 1], u) + if last.user == u then [last.key] else []
  }

  lemma {:induction false} HistoryKeys(log: Log, u: User)
    ensures Keys(History(log, u)) == KeysPut(Pairs(log), u)
  {
    if log != [] {
      var k := |log| - 1;
      HistoryKeys(log[..k], u);
      assert Pairs(log)[..k] == Pairs(log[..k]);
      if log[k].pair.user == u {
        assert Keys(History(log[..k], u) + [log[k]]) == Keys(History(log[..k], u)) + [log[k].pair.key];
      }
    }
  }

  /** Epochs start at 1, never decrease, and end at e or before. */
  predicate Ascending(log: Log, e: nat) {
    log == [] ||
    (1 <= log[|log| - 1].epoch <= e && Ascending(log[..|log| - 1], log[|log| - 1].epoch))
  }

  lemma {:induction false} AscendingLater(log: Log, d: nat, e: nat)
    requires Ascending(log, d) && d <= e
    ensures Ascending(log, e)
  {
  }

  lemma {:induction false} HistoryAscends(log: Log, u: User, e: nat)
    requires Ascending(log, e)
    ensures Ascending(History(log, u), e)
  {
    if log != [] {
      var k := |log| - 1;
      var before := History(log[..k], u);
      HistoryAscends(log[..k], u, log[k].epoch);
      if log[k].pair.user == u {
        assert (before + [log[k]])[..|before|] == before;
      } else {
        AscendingLater(before, log[k].epoch, e);
      }
    }
  }

  // ----- the server's tables

  datatype Tables = Tables(
    currentVersions: map<User, nat>,
    currentKey: map<User, Bytes>,
    currentEpoch: map<User, nat>,
    oldKeys: map<User, seq<Bytes>>,
    oldEpochs: map<User, seq<nat>>)
  {
    function OldKeys(u: User): seq<Bytes> {
      if u in oldKeys then oldKeys[u] else []
    }

    function OldEpochs(u: User): seq<nat> {
      if u in oldEpochs then oldEpochs[u] else []
    }

    function Version(u: User): nat {
      if u in currentVersions then currentVersions[u] else 0
    }
  }

  /** The tables say of one user what happened to it. */
  ghost predicate Describes(t: Tables, u: User, h: Log) {
    var n := |h|;
    && (u in t.currentVersions <==> h != []) && (u in t.currentKey <==> h != []) && (u in t.currentEpoch <==> h != [])
    && (h == [] ==> t.OldKeys(u) == [] && t.OldEpochs(u) == [])
    && (h != [] ==>
      && t.currentVersions[u] == n && t.currentKey[u] == h[n - 1].pair.key && t.currentEpoch[u] == h[n - 1].epoch
      && t.OldKeys(u) == Keys(h[..n - 1]) && t.OldEpochs(u) == Epochs(h[..n - 1]))
  }

  ghost predicate DescribesAll(t: Tables, log: Log) {
    forall u: User :: DescribesUser(t, log, u)
  }

  ghost predicate DescribesUser(t: Tables, log: Log, u: User) {
    Describes(t, u, History(log, u))
  }

  /** What the loop body of applyUpdates does to the tables. */
  function Record(t: Tables, a: Applied): Tables {
    var u := a.pair.user;
    Tables(
      t.currentVersions[u := t.Version(u) + 1],
      t.currentKey[u := a.pair.key],
      t.currentEpoch[u := a.epoch],
      if u in t.currentKey then t.oldKeys[u := t.OldKeys(u) + [t.currentKey[u]]] else t.oldKeys,
      if u in t.currentKey then t.oldEpochs[u := t.OldEpochs(u) + [if u in t.currentEpoch then t.currentEpoch[u] else 0]]
      else t.oldEpochs)
  }

  lemma {:induction false} RecordDescribes(t: Tables, log: Log, a: Applied)
    requires DescribesAll(t, log)
    ensures DescribesAll(Record(t, a), log + [a])
  {
    forall u: User ensures DescribesUser(Record(t, a), log + [a], u) {
      HistoryAppend(log, a, u);
      assert DescribesUser(t, log, u);
      if u == a.pair.user {
        RecordOwn(t, a, History(log, u));
      }
    }
  }

  lemma {:induction false} RecordOwn(t: Tables, a: Applied, h: Log)
    requires Describes(t, a.pair.user, h)
    ensures Describes(Record(t, a), a.pair.user, h + [a])
  {
    var n := |h|;
    assert (h + [a])[..n] == h;
    if h != [] {
      assert h == h[..n - 1] + [h[n - 1]];
      assert Keys(h) == Keys(h[..n - 1]) + [h[n - 1].pair.key];
      assert Epochs(h) == Epochs(h[..n - 1]) + [h[n - 1].epoch];
    }
  }

  // ----- the trie

  /** Epoch and key (the RLP encoding is the identity here). */
  function LeafValue(a: Applied): Bytes {
    BigEndian(a.epoch, 8) + a.pair.key
  }

  function TrieAfter(log: Log): Trie
    requires AllFit(Pairs(log))
  {
    if log == [] then map[]
    else
      var k := |log| - 1;
      var u := log[k].pair.user;
      assert Pairs(log)[k] == log[k].pair && Pairs(log)[..k] == Pairs(log[..k]);
      TrieAfter(log[..k])[MakeTrieKey(u, |History(log[..k], u)| + 1) := LeafValue(log[k])]
  }

  /** User u is separate from every user of the log. */
  ghost predicate SeparateFrom(u: User, log: Log) {
    forall i :: 0 <= i < |log| ==> Separate(u, log[i].pair.user)
  }

  /** User u is not a user of the log followed by a zero byte and perhaps more. */
  ghost predicate ExtendsNone(u: User, log: Log) {
    forall i :: 0 <= i < |log| ==> !ZeroExtends(log[i].pair.user, u)
  }

  /** Version `version` of user u is in the trie if and only if the history h has it, with its value. */
  ghost predicate HasVersion(trie: Trie, u: User, h: Log, version: nat)
    requires Fits(u)
  {
    var key := MakeTrieKey(u, version);
    && (key in trie <==> 1 <= version <= |h|)
    && (key in trie ==> trie[key] == LeafValue(h[version - 1]))
  }

  lemma {:induction false} InsertVersion(trie: Trie, u: User, h: Log, version: nat, a: Applied, next: nat, h': Log)
    requires Fits(u) && Fits(a.pair.user) && Separate(u, a.pair.user) && version < Bound(7) && Small(next)
    requires version > 0 || !ZeroExtends(a.pair.user, u)
    requires HasVersion(trie, u, h, version)
    requires if a.pair.user == u then next == |h| + 1 && h' == h + [a] else h' == h
    ensures HasVersion(trie[MakeTrieKey(a.pair.user, next) := LeafValue(a)], u, h', version)
  {
    if version == 0 {
      ZeroKeyDiffers(u, a.pair.user, next);
    } else {
      TrieKeyInjective(u, version, a.pair.user, next);
    }
  }

  /** The trie holds exactly the versions 1..n of every user, and never version n + 1, nor version 0 unless the
      user extends another one by a zero byte. */
  lemma {:induction false} TrieExact(log: Log, u: User, version: nat)
    requires AllFit(Pairs(log)) && Fits(u) && SeparateFrom(u, log) && |log| < Bound(7) && version < Bound(7)
    requires version > 0 || ExtendsNone(u, log)
    ensures HasVersion(TrieAfter(log), u, History(log, u), version)
  {
    hide LeafValue, MakeTrieKey;
    if log != [] {
      var k := |log| - 1;
      var w := log[k].pair.user;
      LastApplied(log, k);
      TrieExact(log[..k], u, version);
      HistoryAppend(log[..k], log[k], u);
      InsertVersion(TrieAfter(log[..k]), u, History(log[..k], u), version, log[k], |History(log[..k], w)| + 1, History(log, u));
    }
  }

  /** In the trie after any puts, the value of version i of a user is the epoch of the user's i-th put, in eight bytes,
      most significant first, followed by its key. */
  lemma {:induction false} VersionValue(log: Log, u: User, i: nat)
    requires AllFit(Pairs(log)) && Fits(u) && SeparateFrom(u, log) && |log| < Bound(7)
    requires 1 <= i <= |History(log, u)| && History(log, u)[i - 1].epoch < Bound(8)
    ensures MakeTrieKey(u, i) in TrieAfter(log) && |KeysPut(Pairs(log), u)| == |History(log, u)|
    ensures var v := TrieAfter(log)[MakeTrieKey(u, i)];
            |v| >= 8 && FromBigEndian(v[..8]) == History(log, u)[i - 1].epoch && v[8..] == KeysPut(Pairs(log), u)[i - 1]
  {
    hide MakeTrieKey, TrieAfter;
    var a := History(log, u)[i - 1];
    TrieExact(log, u, i);
    HistoryKeys(log, u);
    Decoded(a.epoch, 8);
    assert LeafValue(a)[..8] == BigEndian(a.epoch, 8) && LeafValue(a)[8..] == a.pair.key;
    assert Keys(History(log, u))[i - 1] == a.pair.key;
  }

  lemma {:induction false} LastApplied(log: Log, k: nat)
    requires log != [] && k == |log| - 1 && AllFit(Pairs(log))
    ensures AllFit(Pairs(log[..k])) && Fits(log[k].pair.user) && log == log[..k] + [log[k]]
    ensures TrieAfter(log) ==
            TrieAfter(log[..k])[MakeTrieKey(log[k].pair.user, |History(log[..k], log[k].pair.user)| + 1) := LeafValue(log[k])]
  {
    assert Pairs(log)[k] == log[k].pair && Pairs(log)[..k] == Pairs(log[..k]);
  }

  // ----- applying a buffer

  datatype TrieUpdate = TrieUpdate(account: seq<Byte>, value: Bytes)

  function ApplyAll(trie: Trie, updates: seq<TrieUpdate>): Trie {
    if updates == [] then trie
    else
      var k := |updates| - 1;
      ApplyAll(trie, updates[..k])[updates[k].account := updates[k].value]
  }

  /** The pairs of a buffer, all with the same epoch. */
  function Tagged(pairs: seq<KVPair>, epoch: nat): (log: Log)
    ensures |log| == |pairs|
  {
    seq(|pairs|, i requires 0 <= i < |pairs| => Applied(pairs[i], epoch))
  }

  /** The pairs put so far are those applied followed by those buffered. */
  ghost predicate Accounted(submitted: seq<KVPair>, log: Log, buffer: seq<KVPair>) {
    AllFit(submitted) && submitted == Pairs(log) + buffer
  }

  lemma {:induction false} FlushAccounted(submitted: seq<KVPair>, log: Log, buffer: seq<KVPair>, epoch: nat)
    requires Accounted(submitted, log, buffer)
    ensures AllFit(buffer) && Accounted(submitted, log + Tagged(buffer, epoch), [])
  {
    forall i | 0 <= i < |buffer| ensures Fits(buffer[i].user) {
      assert submitted[|log| + i] == buffer[i];
    }
    assert Pairs(log + Tagged(buffer, epoch)) + [] == Pairs(log) + buffer;
  }

  lemma {:induction false} TaggedNext(log: Log, pairs: seq<KVPair>, epoch: nat, i: nat)
    requires i < |pairs|
    ensures log + Tagged(pairs[..i + 1], epoch) == (log + Tagged(pairs[..i], epoch)) + [Applied(pairs[i], epoch)]
  {
  }

  /** The tables agree with the log, whose epochs go up to e. */
  ghost predicate Consistent(t: Tables, log: Log, e: nat) {
    AllFit(Pairs(log)) && Ascending(log, e) && DescribesAll(t, log)
  }

  lemma {:induction false} NextEpoch(t: Tables, log: Log, e: nat)
    requires Consistent(t, log, e)
    ensures Consistent(t, log, e + 1)
  {
    AscendingLater(log, e, e + 1);
  }

  lemma {:induction false} RecordConsistent(t: Tables, log: Log, a: Applied, t': Tables, log': Log)
    requires Consistent(t, log, a.epoch) && Fits(a.pair.user) && 1 <= a.epoch
    requires t' == Record(t, a) && log' == log + [a]
    ensures Consistent(t', log', a.epoch)
    ensures TrieAfter(log') ==
            TrieAfter(log)[MakeTrieKey(a.pair.user, |History(log, a.pair.user)| + 1) := LeafValue(a)]
  {
    RecordDescribes(t, log, a);
    LogGrows(log, a);
  }

  lemma {:induction false} ApplyOneMore(trie: Trie, updates: seq<TrieUpdate>, u: TrieUpdate)
    ensures ApplyAll(trie, updates + [u]) == ApplyAll(trie, updates)[u.account := u.value]
  {
    assert (updates + [u])[..|updates|] == updates;
  }

  /** One more applied pair. */
  lemma {:induction false} LogGrows(log: Log, a: Applied)
    requires AllFit(Pairs(log)) && Fits(a.pair.user) && Ascending(log, a.epoch) && 1 <= a.epoch
    ensures AllFit(Pairs(log + [a])) && Ascending(log + [a], a.epoch)
    ensures TrieAfter(log + [a]) ==
            TrieAfter(log)[MakeTrieKey(a.pair.user, |History(log, a.pair.user)| + 1) := LeafValue(a)]
  {
    assert (log + [a])[..|log|] == log;
    assert Pairs(log + [a]) == Pairs(log) + [a.pair];
  }
}
