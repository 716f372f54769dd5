/** The commitments and nodes required for a range of versions
    (proof.go, findCommitmentsCoveringRange and findNodesToInterpolate). */
module RequiredCommitments {
  import opened Primitives
  import opened Heap
  import opened Layers
  import opened Cover
  import opened RangeCover
  import opened Dependencies

  ghost predicate RequiredFor(res: CommitmentMap, sv: nat, ev: nat) {
    sv <= ev && Required(FindRangeCoveringCommitments(sv, ev, 1), res)
  }

  method FindCommitmentsCoveringRange(sv: nat, ev: nat) returns (res: CommitmentMap)
    requires sv <= ev
    ensures RequiredFor(res, sv, ev)
  {
    ExactFragments(sv, ev, 0);
    res := AddDependencyCommitments(FindRangeCoveringCommitments(sv, ev, 1));
  }

  // ----- a constant number of proofs

  lemma {:induction false} InParentBatch(layer: nat, b: nat, v: nat)
    requires 0 < layer < MAX_LAYER && InBatch(layer, b, v)
    ensures InBatch(layer + 1, b / L2, v)
  {
    BatchOfBatch(layer + 1, v);
  }

  lemma {:induction false} ReachedAtEnd(k: Key, k': Key, sv: nat, ev: nat)
    requires 0 < k.0 <= MAX_LAYER && AtEnd(k.0, k.1, sv, ev) && Reaches(k, k')
    ensures 0 < k'.0 <= MAX_LAYER && AtEnd(k'.0, k'.1, sv, ev)
    decreases MAX_LAYER - k.0
  {
    if k != k' {
      if InBatch(k.0, k.1, sv) {
        InParentBatch(k.0, k.1, sv);
      } else {
        InParentBatch(k.0, k.1, ev);
      }
      ReachedAtEnd(ParentKey(k), k', sv, ev);
    }
  }

  /** Every required commitment belongs to the batch of the first or of the last version. */
  lemma {:induction false} RequiredAtEnd(res: CommitmentMap, sv: nat, ev: nat, k: Key)
    requires RequiredFor(res, sv, ev) && k in res
    ensures 0 < k.0 <= MAX_LAYER && AtEnd(k.0, k.1, sv, ev)
  {
    var base := FindRangeCoveringCommitments(sv, ev, 1);
    ExactFragments(sv, ev, 0);
    assert ReachedFrom(base, k);
    var i :| 0 <= i < |base| && Reaches(KeyOf(base[i]), k);
    assert IsFragment(base[i], sv, ev);
    ReachedAtEnd(KeyOf(base[i]), k, sv, ev);
  }

  function EndKeys(sv: nat, ev: nat, layers: nat): set<Key>
    requires layers <= MAX_LAYER
  {
    if layers == 0 then {}
    else EndKeys(sv, ev, layers - 1) + {(layers, sv / BatchSize(layers))} + {(layers, ev / BatchSize(layers))}
  }

  lemma {:induction false} TwoMore<T>(s: set<T>, a: T, b: T)
    ensures |s + {a} + {b}| <= |s| + 2
  {
    assert |s + {a}| <= |s| + 1;
    assert |s + {a} + {b}| <= |s + {a}| + 1;
  }

  lemma {:induction false} EndKeysStep(sv: nat, ev: nat, layers: nat, a: Key, b: Key)
    requires 0 < layers <= MAX_LAYER && a == (layers, sv / BatchSize(layers)) && b == (layers, ev / BatchSize(layers))
    ensures EndKeys(sv, ev, layers) == EndKeys(sv, ev, layers - 1) + {a} + {b}
  {
    hide BatchSize;
  }

  lemma {:induction false} EndKeysCount(sv: nat, ev: nat, layers: nat)
    requires layers <= MAX_LAYER
    ensures |EndKeys(sv, ev, layers)| <= 2 * layers
  {
    if layers > 0 {
      hide *;
      var a: Key, b: Key := (layers, sv / BatchSize(layers)), (layers, ev / BatchSize(layers));
      EndKeysStep(sv, ev, layers, a, b);
      EndKeysCount(sv, ev, layers - 1);
      TwoMore(EndKeys(sv, ev, layers - 1), a, b);
    }
  }

  lemma {:induction false} EndKeysMember(sv: nat, ev: nat, layers: nat, k: Key)
    requires 0 < k.0 <= layers <= MAX_LAYER && AtEnd(k.0, k.1, sv, ev)
    ensures k in EndKeys(sv, ev, layers)
  {
    if k.0 < layers {
      EndKeysMember(sv, ev, layers - 1, k);
    }
  }

  lemma {:induction false} SubsetSize<T>(a: set<T>, b: set<T>)
    requires a <= b
    ensures |a| <= |b|
  {
    if a != {} {
      var x :| x in a;
      SubsetSize(a - {x}, b - {x});
    }
  }

  /** However long the range, at most two proofs per layer are needed. */
  lemma {:induction false} ConstantProofCount(res: CommitmentMap, sv: nat, ev: nat)
    requires RequiredFor(res, sv, ev)
    ensures |res| <= 2 * MAX_LAYER
  {
    EndKeysCount(sv, ev, MAX_LAYER);
    forall k | k in res.Keys ensures k in EndKeys(sv, ev, MAX_LAYER) {
      RequiredAtEnd(res, sv, ev, k);
      EndKeysMember(sv, ev, MAX_LAYER, k);
    }
    SubsetSize(res.Keys, EndKeys(sv, ev, MAX_LAYER));
  }

  // ----- the required commitments are closed under parents

  lemma {:induction false} ParentRequired(res: CommitmentMap, sv: nat, ev: nat, k: Key)
    requires RequiredFor(res, sv, ev) && k in res && k.0 < MAX_LAYER
    ensures ParentKey(k) in res && k.1 in res[ParentKey(k)].dependents
  {
    var base := FindRangeCoveringCommitments(sv, ev, 1);
    assert ReachedFrom(base, k);
    ParentReached(base, k);
    assert k.1 in res[ParentKey(k)].dependents <==> IsChildOf(res, ParentKey(k), k.1);
  }

  // ----- the opened nodes

  lemma {:induction false} BaseFragment(base: seq<RangeCommitment>, k: Key) returns (c: RangeCommitment)
    requires BaseRange(base, k).Some?
    ensures c in base && KeyOf(c) == k && c.range == BaseRange(base, k)
  {
    if KeyOf(base[0]) == k {
      c := base[0];
    } else {
      c := BaseFragment(base[1..], k);
    }
  }

  /** A required commitment with a range is a fragment, with dependents added. */
  lemma {:induction false} RequiredFragment(res: CommitmentMap, sv: nat, ev: nat, k: Key)
    requires RequiredFor(res, sv, ev) && k in res && res[k].range.Some?
    ensures IsFragment(res[k].(dependents := []), sv, ev)
    ensures res[k].(dependents := []) in FindRangeCoveringCommitments(sv, ev, 1)
  {
    var base := FindRangeCoveringCommitments(sv, ev, 1);
    ExactFragments(sv, ev, 0);
    var c := BaseFragment(base, k);
    assert IsFragment(c, sv, ev);
    assert c == res[k].(dependents := []);
  }

  lemma {:induction false} RequiredInTree(res: CommitmentMap, sv: nat, ev: nat, k: Key)
    requires RequiredFor(res, sv, ev) && k in res
    ensures InTree(res[k])
  {
    if res[k].range.Some? {
      RequiredFragment(res, sv, ev, k);
      FragmentInTree(res[k].(dependents := []), sv, ev);
    }
  }

  /** The nodes opened for one commitment are distinct and lie within its batch tree. */
  lemma {:induction false} SlotNodesDistinct(res: CommitmentMap, k: Key, dependents: seq<nat>)
    requires Distinct(dependents) && forall i :: 0 <= i < |dependents| ==> IsChildOf(res, k, dependents[i])
    ensures Distinct(SlotNodes(dependents))
    ensures forall x :: x in SlotNodes(dependents) ==> k.0 > 1 && Slot(0) <= x < Slot(L2)
  {
    var slots := SlotNodes(dependents);
    forall i, j | 0 <= i < j < |slots| ensures slots[i] != slots[j] {
      assert IsChildOf(res, k, dependents[i]) && IsChildOf(res, k, dependents[j]);
    }
  }

  lemma {:induction false} BothDistinct(a: seq<nat>, b: seq<nat>)
    requires Distinct(a) && Distinct(b) && forall x, y :: x in a && y in b ==> x != y
    ensures Distinct(a + b)
  {
    forall i, j | 0 <= i < j < |a + b| ensures (a + b)[i] != (a + b)[j] {
      if i < |a| <= j {
        assert a[i] in a && b[j - |a|] in b;
      }
    }
  }

  lemma {:induction false} RequiredNodes(res: CommitmentMap, sv: nat, ev: nat, k: Key)
    requires RequiredFor(res, sv, ev) && k in res
    ensures InTree(res[k]) && Distinct(OpenedNodes(res[k]))
    ensures forall i :: i in OpenedNodes(res[k]) ==> i < TREE_SIZE
  {
    RequiredInTree(res, sv, ev, k);
    var c := res[k];
    CoverNodesDistinct(c);
    forall i | 0 <= i < |c.dependents| ensures IsChildOf(res, k, c.dependents[i]) {
      assert c.dependents[i] in c.dependents;
    }
    SlotNodesDistinct(res, k, c.dependents);
    BothDistinct(SlotNodes(c.dependents), CoverNodes(c));
  }

  lemma {:induction false} CoverNodesDistinct(c: RangeCommitment)
    requires InTree(c)
    ensures Distinct(CoverNodes(c))
    ensures forall i :: i in CoverNodes(c) ==> i < 2 * Arity(c.layer) - 1
  {
    if c.range.Some? {
      CoverProperties(Arity(c.layer), FirstLeaf(c), LastLeaf(c));
    }
  }

  method SlotsToInterpolate(dependents: seq<nat>) returns (nodes: seq<nat>)
    ensures nodes == SlotNodes(dependents)
  {
    nodes := [];
    for i := 0 to |dependents|
      invariant |nodes| == i && forall j :: 0 <= j < i ==> nodes[j] == Slot(dependents[j] % L2)
    {
      nodes := nodes + [2 * L2 - 1 + dependents[i] % L2];
    }
  }

  /** The range of a fragment as leaves of its batch tree. */
  method LeafRange(c: RangeCommitment) returns (n: nat, first: int, last: int)
    requires InTree(c) && c.range.Some?
    ensures n == Arity(c.layer) && first == FirstLeaf(c) && last == LastLeaf(c)
  {
    var denominator := BatchSize(c.layer - 1);
    var start := c.idx * BatchSize(c.layer);
    WholeTree(c.layer, c.idx);
    n := BatchSize(c.layer) / denominator;
    first := c.range.value.start / denominator - start / denominator;
    last := c.range.value.end / denominator - start / denominator;
  }

  /** The nodes a proof of the commitment opens (findNodesToInterpolate). */
  method FindNodesToInterpolate(c: RangeCommitment) returns (nodes: seq<nat>)
    requires InTree(c)
    ensures nodes == OpenedNodes(c)
  {
    nodes := SlotsToInterpolate(c.dependents);
    if c.range.Some? {
      var n, first, last := LeafRange(c);
      var covering := FindCoveringNodes(n, first, last);
      nodes := nodes + covering;
    }
  }

  lemma {:induction false} WholeTree(layer: nat, idx: nat)
    requires 0 < layer <= MAX_LAYER
    ensures BatchSize(layer) / BatchSize(layer - 1) == Arity(layer)
    ensures idx * BatchSize(layer) / BatchSize(layer - 1) == idx * Arity(layer)
  {
  }

  // ----- end to end

  lemma {:induction false} CountCoveringOne(cs: seq<RangeCommitment>, i: nat, v: nat)
    requires i < |cs| && Covers(cs[i], v) && CountCovering(cs, v) <= 1
    ensures forall j :: 0 <= j < |cs| && j != i ==> !Covers(cs[j], v)
  {
    if i > 0 {
      CountCoveringSome(cs[1..], i - 1, v);
      CountCoveringOne(cs[1..], i - 1, v);
      assert forall j :: 0 < j < |cs| ==> cs[j] == cs[1..][j - 1];
    } else {
      forall j | 0 < j < |cs| ensures !Covers(cs[j], v) {
        if Covers(cs[j], v) {
          CountCoveringSome(cs[1..], j - 1, v);
        }
      }
    }
  }

  lemma {:induction false} CountCoveringSome(cs: seq<RangeCommitment>, i: nat, v: nat)
    requires i < |cs| && Covers(cs[i], v)
    ensures CountCovering(cs, v) >= 1
  {
    if i > 0 {
      CountCoveringSome(cs[1..], i - 1, v);
    }
  }

  lemma {:induction false} CountCoveringWitness(cs: seq<RangeCommitment>, v: nat) returns (i: nat)
    requires CountCovering(cs, v) > 0
    ensures i < |cs| && Covers(cs[i], v)
  {
    if Covers(cs[0], v) {
      i := 0;
    } else {
      i := CountCoveringWitness(cs[1..], v);
      i := i + 1;
    }
  }

  /** How many opened nodes of a required commitment have version v beneath them. */
  lemma {:induction false} RequiredCount(res: CommitmentMap, sv: nat, ev: nat, k: Key, v: nat)
    requires RequiredFor(res, sv, ev) && k in res
    ensures InTree(res[k]) && CountBeneath(res[k], v) == if Covers(res[k], v) then 1 else 0
  {
    RequiredInTree(res, sv, ev, k);
    if res[k].range.Some? {
      RequiredFragment(res, sv, ev, k);
      FragmentCover(res[k].(dependents := []), sv, ev, v);
      WithoutDependents(res[k], v);
    } else {
      NoCover(res[k], v);
    }
  }

  lemma {:induction false} WithoutDependents(c: RangeCommitment, v: nat)
    requires InTree(c)
    ensures CountBeneath(c.(dependents := []), v) == CountBeneath(c, v) && Covers(c.(dependents := []), v) == Covers(c, v)
  {
    assert CoverNodes(c.(dependents := [])) == CoverNodes(c);
  }

  lemma {:induction false} NoCover(c: RangeCommitment, v: nat)
    requires InTree(c) && c.range == None
    ensures CountBeneath(c, v) == 0 && !Covers(c, v)
  {
  }

  ghost predicate OpenedOnce(res: CommitmentMap, v: nat, k: Key) {
    k in res && InTree(res[k]) && CountBeneath(res[k], v) == 1
  }

  /** End to end: a version lies beneath exactly one opened node of exactly one required commitment
      if and only if it is in the range and its top-layer batch is not entirely in the range. */
  lemma {:induction false} EndToEndCover(res: CommitmentMap, sv: nat, ev: nat, v: nat)
    requires RequiredFor(res, sv, ev)
    ensures forall k :: k in res ==> InTree(res[k]) && CountBeneath(res[k], v) <= 1
    ensures forall k, k' :: OpenedOnce(res, v, k) && OpenedOnce(res, v, k') ==> k == k'
    ensures (exists k :: OpenedOnce(res, v, k)) <==> sv <= v <= ev && !InCompleteTop(sv, ev, v)
  {
    hide CountBeneath, FindRangeCoveringCommitments;
    var base := FindRangeCoveringCommitments(sv, ev, 1);
    ExactFragments(sv, ev, v);
    forall k | k in res ensures InTree(res[k]) && CountBeneath(res[k], v) <= 1 {
      RequiredCount(res, sv, ev, k, v);
    }
    forall k, k' | OpenedOnce(res, v, k) && OpenedOnce(res, v, k') ensures k == k' {
      var i := OpenedFragment(res, sv, ev, v, k);
      var i' := OpenedFragment(res, sv, ev, v, k');
      CountCoveringOne(base, i, v);
    }
    if sv <= v <= ev && !InCompleteTop(sv, ev, v) {
      var k := FragmentOpened(res, sv, ev, v);
    } else if k :| OpenedOnce(res, v, k) {
      var i := OpenedFragment(res, sv, ev, v, k);
      CountCoveringSome(base, i, v);
    }
  }

  /** A commitment that opens a node above v once is one of the fragments, and covers v. */
  lemma {:induction false} OpenedFragment(res: CommitmentMap, sv: nat, ev: nat, v: nat, k: Key) returns (i: nat)
    requires RequiredFor(res, sv, ev) && OpenedOnce(res, v, k)
    ensures var base := FindRangeCoveringCommitments(sv, ev, 1);
            i < |base| && KeyOf(base[i]) == k && Covers(base[i], v)
  {
    var base := FindRangeCoveringCommitments(sv, ev, 1);
    RequiredCount(res, sv, ev, k, v);
    RequiredFragment(res, sv, ev, k);
    i :| 0 <= i < |base| && base[i] == res[k].(dependents := []);
  }

  lemma {:induction false} FragmentOpened(res: CommitmentMap, sv: nat, ev: nat, v: nat) returns (k: Key)
    requires RequiredFor(res, sv, ev) && sv <= v <= ev && !InCompleteTop(sv, ev, v)
    ensures OpenedOnce(res, v, k)
  {
    var base := FindRangeCoveringCommitments(sv, ev, 1);
    ExactFragments(sv, ev, v);
    var i := CountCoveringWitness(base, v);
    k := KeyOf(base[i]);
    assert Reaches(k, k) && ReachedFrom(base, k);
    BaseRangeAt(base, i);
    RequiredCount(res, sv, ev, k, v);
  }
}
