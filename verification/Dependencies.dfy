/** Adding the commitments that authenticate others (proof.go, addDepencencyCommitments). */
module Dependencies {
  import opened Primitives
  import opened Layers
  import opened Cover
  import opened RangeCover

  /** The batch that holds a batch's commitment in a slot. */
  function ParentKey(k: Key): Key {
    (k.0 + 1, k.1 / L2)
  }

  /** k' is k or one of the batches above it. */
  predicate Reaches(k: Key, k': Key)
    decreases MAX_LAYER - k.0
  {
    k == k' || (k.0 < MAX_LAYER && Reaches(ParentKey(k), k'))
  }

  type CommitmentMap = map<Key, RangeCommitment>

  /** The range that the base commitment with key k covers itself. */
  function BaseRange(base: seq<RangeCommitment>, k: Key): Option<BlockRange> {
    if base == [] then None
    else if KeyOf(base[0]) == k then base[0].range
    else BaseRange(base[1..], k)
  }

  ghost predicate IsBase(base: seq<RangeCommitment>) {
    && DistinctKeys(base)
    && forall c :: c in base ==> 0 < c.layer <= MAX_LAYER && c.dependents == []
  }

  /** The required commitments: the base commitments and everything above them, each with its own
      range and with the child batches that are required, each once. */
  ghost predicate Required(base: seq<RangeCommitment>, res: CommitmentMap) {
    && (forall k :: k in res <==> ReachedFrom(base, k))
    && (forall k :: k in res ==> 0 < k.0 <= MAX_LAYER && KeyOf(res[k]) == k && res[k].range == BaseRange(base, k))
    && (forall k :: k in res ==> Distinct(res[k].dependents))
    && (forall k, i :: k in res ==> (i in res[k].dependents <==> IsChildOf(res, k, i)))
  }

  ghost predicate ReachedFrom(base: seq<RangeCommitment>, k: Key) {
    k.0 <= MAX_LAYER && exists i :: 0 <= i < |base| && Reaches(KeyOf(base[i]), k)
  }

  ghost predicate IsChildOf(res: CommitmentMap, k: Key, i: nat) {
    k.0 > 1 && i / L2 == k.1 && (k.0 - 1, i) in res
  }

  // ----- the loop

  /** Every known commitment is either queued or handled, once. */
  ghost predicate Scheduled(known: CommitmentMap, queue: seq<Key>, handled: set<Key>) {
    && (forall k :: k in known <==> k in handled || k in queue)
    && (forall i :: 0 <= i < |queue| ==> queue[i] !in handled)
    && Distinct(queue)
  }

  ghost predicate EntryOk(base: seq<RangeCommitment>, k: Key, c: RangeCommitment) {
    0 < k.0 <= MAX_LAYER && KeyOf(c) == k && c.range == BaseRange(base, k) && ReachedFrom(base, k)
  }

  ghost predicate EntriesOk(base: seq<RangeCommitment>, known: CommitmentMap) {
    && (forall k :: k in known ==> EntryOk(base, k, known[k]))
    && (forall i :: 0 <= i < |base| ==> KeyOf(base[i]) in known)
  }

  ghost predicate ParentsKnown(known: CommitmentMap, handled: set<Key>) {
    forall k :: k in handled && k.0 < MAX_LAYER ==> ParentKey(k) in known
  }

  /** A commitment lists exactly its handled children, each once. */
  ghost predicate ListsChildren(c: RangeCommitment, k: Key, handled: set<Key>) {
    && Distinct(c.dependents)
    && forall i :: i in c.dependents <==> HandledChild(handled, k, i)
  }

  ghost predicate HandledChild(handled: set<Key>, k: Key, i: nat) {
    k.0 > 1 && i / L2 == k.1 && (k.0 - 1, i) in handled
  }

  ghost predicate AllListChildren(known: CommitmentMap, handled: set<Key>) {
    forall k :: k in known ==> ListsChildren(known[k], k, handled)
  }

  ghost predicate WorkList(base: seq<RangeCommitment>, known: CommitmentMap, queue: seq<Key>, handled: set<Key>) {
    && Scheduled(known, queue, handled) && EntriesOk(base, known)
    && ParentsKnown(known, handled) && AllListChildren(known, handled)
  }

  /** A handled commitment reports to its parent, which is added if it is new. */
  function Report(known: CommitmentMap, k: Key): CommitmentMap {
    var p := ParentKey(k);
    known[p := if p in known then known[p].(dependents := known[p].dependents + [k.1])
               else RangeCommitment(p.1, p.0, None, [k.1])]
  }

  lemma {:induction false} BaseRangeNone(base: seq<RangeCommitment>, k: Key)
    requires forall i :: 0 <= i < |base| ==> KeyOf(base[i]) != k
    ensures BaseRange(base, k) == None
  {
    if base != [] {
      BaseRangeNone(base[1..], k);
    }
  }

  lemma {:induction false} BaseRangeAt(base: seq<RangeCommitment>, i: nat)
    requires DistinctKeys(base) && i < |base|
    ensures BaseRange(base, KeyOf(base[i])) == base[i].range
  {
    if i > 0 {
      BaseRangeAt(base[1..], i - 1);
    }
  }

  lemma {:induction false} ReachesParent(k: Key, k': Key)
    requires Reaches(k, k') && k'.0 < MAX_LAYER
    ensures Reaches(k, ParentKey(k'))
    decreases MAX_LAYER - k.0
  {
    if k != k' {
      ReachesParent(ParentKey(k), k');
    }
  }

  lemma {:induction false} ParentReached(base: seq<RangeCommitment>, k: Key)
    requires ReachedFrom(base, k) && k.0 < MAX_LAYER
    ensures ReachedFrom(base, ParentKey(k))
  {
    var i :| 0 <= i < |base| && Reaches(KeyOf(base[i]), k);
    ReachesParent(KeyOf(base[i]), k);
  }

  lemma {:induction false} Dequeue(known: CommitmentMap, queue: seq<Key>, handled: set<Key>)
    requires Scheduled(known, queue, handled) && queue != []
    ensures Scheduled(known, queue[1..], handled + {queue[0]})
  {
    assert queue == [queue[0]] + queue[1..];
  }

  lemma {:induction false} Enqueue(known: CommitmentMap, queue: seq<Key>, handled: set<Key>, p: Key, c: RangeCommitment)
    requires Scheduled(known, queue, handled) && p !in known
    ensures Scheduled(known[p := c], queue + [p], handled)
  {
  }

  lemma {:induction false} OtherParent(k: Key, q: Key, i: nat, handled: set<Key>)
    requires ParentKey(k) != q
    ensures HandledChild(handled + {k}, q, i) <==> HandledChild(handled, q, i)
  {
  }

  /** Only the parent of a newly handled commitment has a new child. */
  lemma {:induction false} SameChildren(c: RangeCommitment, q: Key, handled: set<Key>, k: Key)
    requires ListsChildren(c, q, handled) && ParentKey(k) != q
    ensures ListsChildren(c, q, handled + {k})
  {
    forall i ensures i in c.dependents <==> HandledChild(handled + {k}, q, i) {
      OtherParent(k, q, i, handled);
    }
  }

  lemma {:induction false} MoreChildren(c: RangeCommitment, handled: set<Key>, k: Key)
    requires ListsChildren(c, ParentKey(k), handled) && 0 < k.0 && k !in handled
    ensures ListsChildren(c.(dependents := c.dependents + [k.1]), ParentKey(k), handled + {k})
  {
    var p := ParentKey(k);
    assert k.1 !in c.dependents by {
      assert k.1 in c.dependents <==> HandledChild(handled, p, k.1);
    }
    forall i ensures i in c.dependents + [k.1] <==> HandledChild(handled + {k}, p, i) {
      assert i in c.dependents <==> HandledChild(handled, p, i);
    }
  }

  lemma {:induction false} FirstChild(known: CommitmentMap, handled: set<Key>, k: Key)
    requires 0 < k.0 && k !in handled && ParentsKnown(known, handled) && ParentKey(k) !in known && k.0 < MAX_LAYER
    ensures ListsChildren(RangeCommitment(ParentKey(k).1, ParentKey(k).0, None, [k.1]), ParentKey(k), handled + {k})
  {
    var p := ParentKey(k);
    forall i: nat ensures i in [k.1] <==> HandledChild(handled + {k}, p, i) {
      assert (k.0, i) in handled ==> ParentKey((k.0, i)) in known;
    }
  }

  /** The children lists after the handling of one commitment. */
  lemma {:induction false} HandleChildren(known: CommitmentMap, handled: set<Key>, k: Key)
    requires ParentsKnown(known, handled) && AllListChildren(known, handled) && 0 < k.0 < MAX_LAYER && k !in handled
    ensures AllListChildren(Report(known, k), handled + {k})
  {
    var p, known' := ParentKey(k), Report(known, k);
    forall q | q in known' ensures ListsChildren(known'[q], q, handled + {k}) {
      if q != p {
        SameChildren(known[q], q, handled, k);
      } else if p in known {
        MoreChildren(known[p], handled, k);
      } else {
        FirstChild(known, handled, k);
      }
    }
  }

  lemma {:induction false} HandleTopChildren(known: CommitmentMap, handled: set<Key>, k: Key)
    requires AllListChildren(known, handled) && k.0 == MAX_LAYER && (forall q :: q in known ==> q.0 <= MAX_LAYER)
    ensures AllListChildren(known, handled + {k})
  {
    forall q | q in known ensures ListsChildren(known[q], q, handled + {k}) {
      SameChildren(known[q], q, handled, k);
    }
  }

  lemma {:induction false} HandleEntries(base: seq<RangeCommitment>, known: CommitmentMap, k: Key)
    requires EntriesOk(base, known) && k in known && k.0 < MAX_LAYER
    ensures EntriesOk(base, Report(known, k))
  {
    var p, known' := ParentKey(k), Report(known, k);
    assert EntryOk(base, k, known[k]);
    ParentReached(base, k);
    if p !in known {
      BaseRangeNone(base, p);
      assert EntryOk(base, p, known'[p]);
    } else {
      assert EntryOk(base, p, known[p]);
    }
    forall q | q in known' ensures EntryOk(base, q, known'[q]) {
      if q != p {
        assert EntryOk(base, q, known[q]);
      }
    }
  }

  function Work(queue: seq<Key>): nat {
    if queue == [] then 0
    else (if queue[0].0 <= MAX_LAYER then MAX_LAYER + 1 - queue[0].0 else 0) + Work(queue[1..])
  }

  lemma {:induction false} WorkAppend(queue: seq<Key>, k: Key)
    ensures Work(queue + [k]) == Work(queue) + (if k.0 <= MAX_LAYER then MAX_LAYER + 1 - k.0 else 0)
  {
    if queue != [] {
      assert (queue + [k])[1..] == queue[1..] + [k];
      WorkAppend(queue[1..], k);
    }
  }

  lemma {:induction false} AllReached(base: seq<RangeCommitment>, known: CommitmentMap, handled: set<Key>, k: Key, k': Key)
    requires WorkList(base, known, [], handled) && k in known && Reaches(k, k')
    ensures k' in known
    decreases MAX_LAYER - k.0
  {
    if k != k' {
      AllReached(base, known, handled, ParentKey(k), k');
    }
  }

  lemma {:induction false} WorkDone(base: seq<RangeCommitment>, known: CommitmentMap, handled: set<Key>)
    requires WorkList(base, known, [], handled)
    ensures Required(base, known)
  {
    forall k | ReachedFrom(base, k) ensures k in known {
      var i :| 0 <= i < |base| && Reaches(KeyOf(base[i]), k);
      AllReached(base, known, handled, KeyOf(base[i]), k);
    }
    forall k | k in known
      ensures EntryOk(base, k, known[k]) && Distinct(known[k].dependents)
      ensures forall i :: i in known[k].dependents <==> IsChildOf(known, k, i)
    {
      assert ListsChildren(known[k], k, handled);
      forall i ensures i in known[k].dependents <==> IsChildOf(known, k, i) {
        assert i in known[k].dependents <==> HandledChild(handled, k, i);
      }
    }
  }

  /** Every base commitment is known and queued, none is handled. */
  method StartWork(base: seq<RangeCommitment>) returns (known: CommitmentMap, queue: seq<Key>)
    requires IsBase(base)
    ensures WorkList(base, known, queue, {})
  {
    known, queue := map[], [];
    for n := 0 to |base|
      invariant |queue| == n && forall i :: 0 <= i < n ==> queue[i] == KeyOf(base[i])
      invariant forall k :: k in known <==> k in queue
      invariant forall i :: 0 <= i < n ==> KeyOf(base[i]) in known && known[KeyOf(base[i])] == base[i]
    {
      known := known[KeyOf(base[n]) := base[n]];
      queue := queue + [KeyOf(base[n])];
    }
    StartEntries(base, known, queue);
  }

  lemma {:induction false} StartEntries(base: seq<RangeCommitment>, known: CommitmentMap, queue: seq<Key>)
    requires IsBase(base) && |queue| == |base|
    requires forall i :: 0 <= i < |queue| ==> queue[i] == KeyOf(base[i])
    requires forall k :: k in known <==> k in queue
    requires forall i :: 0 <= i < |queue| ==> KeyOf(base[i]) in known && known[KeyOf(base[i])] == base[i]
    ensures WorkList(base, known, queue, {})
  {
    forall k | k in known ensures EntryOk(base, k, known[k]) && ListsChildren(known[k], k, {}) {
      var i :| 0 <= i < |queue| && queue[i] == k;
      assert base[i] in base;
      BaseRangeAt(base, i);
      assert Reaches(KeyOf(base[i]), k);
    }
  }

  /** One round of the loop: the first queued commitment is handled. */
  function NextQueue(known: CommitmentMap, queue: seq<Key>): seq<Key>
    requires queue != []
  {
    if queue[0].0 < MAX_LAYER && ParentKey(queue[0]) !in known then queue[1..] + [ParentKey(queue[0])] else queue[1..]
  }

  function NextKnown(known: CommitmentMap, k: Key): CommitmentMap {
    if k.0 < MAX_LAYER then Report(known, k) else known
  }

  lemma {:induction false} RoundSchedule(known: CommitmentMap, queue: seq<Key>, handled: set<Key>)
    requires Scheduled(known, queue, handled) && queue != []
    ensures Scheduled(NextKnown(known, queue[0]), NextQueue(known, queue), handled + {queue[0]})
  {
    var k, p := queue[0], ParentKey(queue[0]);
    Dequeue(known, queue, handled);
    if k.0 < MAX_LAYER && p !in known {
      Enqueue(known, queue[1..], handled + {k}, p, Report(known, k)[p]);
    }
  }

  lemma {:induction false} RoundWork(known: CommitmentMap, queue: seq<Key>)
    requires queue != [] && queue[0].0 <= MAX_LAYER
    ensures Work(NextQueue(known, queue)) < Work(queue)
  {
    WorkAppend(queue[1..], ParentKey(queue[0]));
  }

  lemma {:induction false} KeysInRange(base: seq<RangeCommitment>, known: CommitmentMap)
    requires EntriesOk(base, known)
    ensures forall q :: q in known ==> 0 < q.0 <= MAX_LAYER
  {
    forall q | q in known ensures 0 < q.0 <= MAX_LAYER {
      assert EntryOk(base, q, known[q]);
    }
  }

  lemma {:induction false} RoundEntries(base: seq<RangeCommitment>, known: CommitmentMap, k: Key)
    requires EntriesOk(base, known) && k in known
    ensures EntriesOk(base, NextKnown(known, k))
  {
    if k.0 < MAX_LAYER {
      HandleEntries(base, known, k);
    }
  }

  lemma {:induction false} RoundChildren(known: CommitmentMap, handled: set<Key>, k: Key)
    requires ParentsKnown(known, handled) && AllListChildren(known, handled)
    requires forall q :: q in known ==> 0 < q.0 <= MAX_LAYER
    requires k in known && k !in handled
    ensures AllListChildren(NextKnown(known, k), handled + {k})
  {
    if k.0 < MAX_LAYER {
      HandleChildren(known, handled, k);
    } else {
      HandleTopChildren(known, handled, k);
    }
  }

  lemma {:induction false} RoundParents(known: CommitmentMap, handled: set<Key>, k: Key)
    requires ParentsKnown(known, handled)
    ensures ParentsKnown(NextKnown(known, k), handled + {k})
  {
  }

  method AddDependencyCommitments(base: seq<RangeCommitment>) returns (known: CommitmentMap)
    requires IsBase(base)
    ensures Required(base, known)
  {
    var queue;
    known, queue := StartWork(base);
    ghost var handled: set<Key> := {};
    while queue != []
      invariant Scheduled(known, queue, handled) && EntriesOk(base, known)
      invariant ParentsKnown(known, handled) && AllListChildren(known, handled)
      decreases Work(queue)
    {
      var k := queue[0];
      KeysInRange(base, known);
      RoundSchedule(known, queue, handled);
      RoundWork(known, queue);
      RoundEntries(base, known, k);
      RoundChildren(known, handled, k);
      RoundParents(known, handled, k);
      handled := handled + {k};
      known, queue := NextKnown(known, k), NextQueue(known, queue);
    }
    WorkDone(base, known, handled);
  }
}
