/** What each proof of a reply says about its place among the others and about the versions it holds (proof.go). */
module ReplyShape {
  import opened Arithmetic
  import opened Primitives
  import opened Layers
  import opened Accounts
  import opened Cover
  import opened RangeCover
  import opened Dependencies
  import opened RequiredCommitments
  import opened RangeProofs

  /** The whole batch of version v at a layer lies in the range; a batch of layer 0 is one version. */
  predicate Whole(layer: nat, sv: nat, ev: nat, v: nat)
    requires layer <= MAX_LAYER
  {
    var size := BatchSize(layer);
    sv <= v / size * size && (v / size + 1) * size <= ev + 1
  }

  // ----- batches of different layers

  function Ratio(layer: nat, upper: nat): nat
    requires layer <= upper
  {
    if layer == upper then 1 else Ratio(layer, upper - 1) * Arity(upper)
  }

  lemma {:induction false} RatioOfSizes(layer: nat, upper: nat)
    requires layer <= upper <= MAX_LAYER
    ensures BatchSize(upper) == BatchSize(layer) * Ratio(layer, upper)
  {
    hide BatchSize, Arity;
    if layer < upper {
      RatioOfSizes(layer, upper - 1);
      SizeStep(upper);
      Product(BatchSize(layer), Ratio(layer, upper - 1), Arity(upper));
    }
  }

  lemma {:induction false} Product(a: nat, b: nat, c: nat)
    ensures a * b * c == a * (b * c)
  {
  }

  lemma {:induction false} AsMultiple(layer: nat, upper: nat, b: nat) returns (k: nat)
    requires layer <= upper <= MAX_LAYER
    ensures b * BatchSize(upper) == k * BatchSize(layer)
  {
    hide BatchSize;
    RatioOfSizes(layer, upper);
    k := b * Ratio(layer, upper);
    Exchanged(b, BatchSize(layer), Ratio(layer, upper));
  }

  lemma {:induction false} Exchanged(b: nat, size: nat, ratio: nat)
    ensures b * (size * ratio) == b * ratio * size
  {
  }

  /** A batch that lies in the range takes the lower ones with it. */
  lemma {:induction false} WholeBelow(layer: nat, upper: nat, sv: nat, ev: nat, v: nat)
    requires layer <= upper <= MAX_LAYER && Whole(upper, sv, ev, v)
    ensures Whole(layer, sv, ev, v)
  {
    var small, size := BatchSize(layer), BatchSize(upper);
    var first := AsMultiple(layer, upper, v / size);
    var next := AsMultiple(layer, upper, v / size + 1);
    Between(v, small, size, first, next, v / small, v / size);
  }

  lemma {:induction false} Between(v: nat, small: nat, size: nat, first: nat, next: nat, p: nat, q: nat)
    requires small > 0 && size > 0 && p == v / small && q == v / size && q * size == first * small && (q + 1) * size == next * small
    ensures q * size <= p * small && (p + 1) * small <= (q + 1) * size
  {
    Divided(v, size);
    ProductBound(first, small, v);
    Scale(first, p, small);
    ProductBound(next, small, v);
    Scale(p + 1, next, small);
  }

  lemma {:induction false} WholeInRange(layer: nat, sv: nat, ev: nat, v: nat)
    requires layer <= MAX_LAYER && Whole(layer, sv, ev, v)
    ensures sv <= v <= ev
  {
    Divided(v, BatchSize(layer));
  }

  /** Cutting off the fragments of a layer does not change which batches from this layer on lie in the range. */
  lemma {:induction false} TrimmedWhole(sb: nat, eb: nat, layer: nat, upper: nat, v: nat)
    requires 0 < layer <= upper <= MAX_LAYER && 0 <= BeforeRight(eb, layer)
    ensures Whole(upper, sb, eb, v) <==> Whole(upper, AfterLeft(sb, layer), BeforeRight(eb, layer), v)
  {
    hide BatchSize, RoundedUp, RoundedDown;
    var b := v / BatchSize(upper);
    var k := AsMultiple(layer, upper, b);
    var k' := AsMultiple(layer, upper, b + 1);
    UpLeast(sb, BatchSize(layer), k);
    DownGreatest(eb, BatchSize(layer), k');
  }

  /** In a range of whole batches every version lies in one. */
  lemma {:induction false} AlignedWhole(sb: nat, eb: nat, layer: nat, v: nat)
    requires layer <= MAX_LAYER && Aligned(sb, eb, layer) && sb <= v <= eb
    ensures Whole(layer, sb, eb, v)
  {
    hide BatchSize;
    WholeOfSize(sb, eb, BatchSize(layer), v);
  }

  lemma {:induction false} WholeOfSize(sb: nat, eb: nat, size: nat, v: nat)
    requires size > 0 && sb % size == 0 && (eb + 1) % size == 0 && sb <= v <= eb
    ensures sb <= v / size * size && (v / size + 1) * size <= eb + 1
  {
    Divided(sb, size);
    Monotone(sb, v, size);
    Scale(sb / size, v / size, size);
    LastOfMultiple(eb, size);
    Monotone(v, eb, size);
    Scale(v / size, eb / size, size);
    Divided(v, size);
  }

  // ----- the layer of a fragment

  /** A fragment that is cut off at a layer is part of a batch that does not lie in the range. */
  lemma {:induction false} LeftPart(sb: nat, eb: nat, size: nat, v: nat)
    requires size > 0 && sb % size != 0 && sb <= v < RoundedUp(sb, size)
    ensures v / size == sb / size && !(sb <= v / size * size)
  {
    Divided(sb, size);
    RoundedUpValue(sb, size);
    DivUnique(v, size, sb / size, v - sb / size * size);
  }

  lemma {:induction false} RightPart(sb: nat, eb: nat, size: nat, v: nat)
    requires size > 0 && eb % size != size - 1 && RoundedDown(eb, size) < v <= eb
    ensures v / size == eb / size && !((v / size + 1) * size <= eb + 1)
  {
    Divided(eb, size);
    RoundedDownValue(eb, size);
    DivUnique(v, size, eb / size, v - eb / size * size);
  }

  lemma {:induction false} OnePart(sb: nat, eb: nat, size: nat, v: nat)
    requires size > 0 && sb <= v <= eb && sb / size == eb / size && (sb % size != 0 || eb % size != size - 1)
    ensures v / size == sb / size && !(sb <= v / size * size && (v / size + 1) * size <= eb + 1)
  {
    Monotone(sb, v, size);
    Monotone(v, eb, size);
    Divided(sb, size);
    Divided(eb, size);
  }

  lemma {:induction false} CutOff(sb: nat, eb: nat, layer: nat, c: RangeCommitment, v: nat)
    requires 0 < layer <= MAX_LAYER && sb <= eb && Covers(c, v) && sb <= v <= eb
    requires if InOnePart(sb, eb, layer) then c == Fragment(layer, sb / BatchSize(layer), sb, eb) else c in FragmentsAt(sb, eb, layer)
    ensures c.layer == layer && c.idx == v / BatchSize(layer) && !Whole(layer, sb, eb, v)
  {
    hide BatchSize, RoundedUp, RoundedDown;
    var size := BatchSize(layer);
    if InOnePart(sb, eb, layer) {
      OnePart(sb, eb, size, v);
    } else if HasLeft(sb, layer) && c == Fragment(layer, sb / size, sb, AfterLeft(sb, layer) - 1) {
      LeftPart(sb, eb, size, v);
    } else {
      RightPart(sb, eb, size, v);
    }
  }

  lemma {:induction false} Cases(sb: nat, eb: nat, layer: nat, c: RangeCommitment)
    requires sb <= eb && 0 < layer <= MAX_LAYER && c in FindRangeCoveringCommitments(sb, eb, layer)
    ensures InOnePart(sb, eb, layer) ==> c == Fragment(layer, sb / BatchSize(layer), sb, eb)
    ensures !InOnePart(sb, eb, layer) && c !in FragmentsAt(sb, eb, layer) ==>
              && 0 <= AfterLeft(sb, layer) <= BeforeRight(eb, layer) && layer < MAX_LAYER
              && Aligned(AfterLeft(sb, layer), BeforeRight(eb, layer), layer)
              && c in FindRangeCoveringCommitments(AfterLeft(sb, layer), BeforeRight(eb, layer), layer + 1)
  {
    hide BatchSize, RoundedUp, RoundedDown;
    if !InOnePart(sb, eb, layer) {
      Trimmed(sb, eb, layer);
    }
  }

  lemma {:induction false} CutOffInside(sb: nat, eb: nat, layer: nat, c: RangeCommitment, v: nat)
    requires sb <= eb && 0 < layer <= MAX_LAYER && Covers(c, v)
    requires if InOnePart(sb, eb, layer) then c == Fragment(layer, sb / BatchSize(layer), sb, eb) else c in FragmentsAt(sb, eb, layer)
    ensures sb <= v <= eb
  {
    hide BatchSize;
    if !InOnePart(sb, eb, layer) {
      Trimmed(sb, eb, layer);
    }
  }

  /** A version of a fragment: its batch at the layer below lies in the range, and the one at the fragment's layer does
      not. */
  lemma {:induction false} FragmentLayer(sb: nat, eb: nat, layer: nat, c: RangeCommitment, v: nat)
    requires 0 < layer <= MAX_LAYER && sb <= eb && Aligned(sb, eb, layer - 1)
    requires c in FindRangeCoveringCommitments(sb, eb, layer) && Covers(c, v)
    ensures sb <= v <= eb && layer <= c.layer <= MAX_LAYER && c.idx == v / BatchSize(c.layer)
    ensures Whole(c.layer - 1, sb, eb, v) && !Whole(c.layer, sb, eb, v)
    decreases MAX_LAYER - layer
  {
    hide BatchSize, RoundedUp, RoundedDown, Whole, Aligned, FindRangeCoveringCommitments, FragmentsAt, InOnePart, Covers, AfterLeft, BeforeRight;
    Cases(sb, eb, layer, c);
    if InOnePart(sb, eb, layer) || c in FragmentsAt(sb, eb, layer) {
      CutOffInside(sb, eb, layer, c, v);
      CutOff(sb, eb, layer, c, v);
      AlignedWhole(sb, eb, layer - 1, v);
    } else {
      var sb', eb' := AfterLeft(sb, layer), BeforeRight(eb, layer);
      FragmentLayer(sb', eb', layer + 1, c, v);
      TrimmedWhole(sb, eb, layer, c.layer - 1, v);
      TrimmedWhole(sb, eb, layer, c.layer, v);
      WholeInRange(c.layer - 1, sb, eb, v);
    }
  }

  /** Version v belongs to batch k of a range: the batch contains it and does not lie in the range, but its batch at the
      layer below does. */
  predicate BelongsTo(k: Key, sv: nat, ev: nat, v: nat) {
    0 < k.0 <= MAX_LAYER && v / BatchSize(k.0) == k.1 && Whole(k.0 - 1, sv, ev, v) && !Whole(k.0, sv, ev, v)
  }

  lemma {:induction false} BelongsToOne(k: Key, k': Key, sv: nat, ev: nat, v: nat)
    requires BelongsTo(k, sv, ev, v) && BelongsTo(k', sv, ev, v)
    ensures k == k'
  {
    if k.0 < k'.0 {
      WholeBelow(k.0, k'.0 - 1, sv, ev, v);
    } else if k'.0 < k.0 {
      WholeBelow(k'.0, k.0 - 1, sv, ev, v);
    }
  }

  lemma {:induction false} FragmentHolds(sv: nat, ev: nat, c: RangeCommitment, v: nat)
    requires sv <= ev && c in FindRangeCoveringCommitments(sv, ev, 1) && Covers(c, v)
    ensures BelongsTo(KeyOf(c), sv, ev, v)
  {
    assert Aligned(sv, ev, 0);
    FragmentLayer(sv, ev, 1, c, v);
  }

  lemma {:induction false} NotInTop(k: Key, sv: nat, ev: nat, v: nat)
    requires BelongsTo(k, sv, ev, v)
    ensures sv <= v <= ev && !InCompleteTop(sv, ev, v)
  {
    WholeInRange(k.0 - 1, sv, ev, v);
    if InCompleteTop(sv, ev, v) {
      assert Whole(MAX_LAYER, sv, ev, v);
      WholeBelow(k.0, MAX_LAYER, sv, ev, v);
    }
  }

  /** The range of a required commitment holds exactly the versions that belong to its batch. */
  lemma {:induction false} RequiredRange(res: CommitmentMap, sv: nat, ev: nat, k: Key, v: nat)
    requires RequiredFor(res, sv, ev) && k in res
    ensures Covers(res[k], v) <==> BelongsTo(k, sv, ev, v)
  {
    hide BelongsTo, FindRangeCoveringCommitments, CountCovering;
    var base := FindRangeCoveringCommitments(sv, ev, 1);
    ExactFragments(sv, ev, v);
    if Covers(res[k], v) {
      RequiredFragment(res, sv, ev, k);
      FragmentHolds(sv, ev, res[k].(dependents := []), v);
    }
    if BelongsTo(k, sv, ev, v) {
      NotInTop(k, sv, ev, v);
      var i := CountCoveringWitness(base, v);
      FragmentHolds(sv, ev, base[i], v);
      BelongsToOne(k, KeyOf(base[i]), sv, ev, v);
      BaseRangeAt(base, i);
    }
  }

  // ----- which commitments are required

  /** The batch has a version in the range and one outside it. */
  predicate Straddles(k: Key, sv: nat, ev: nat) {
    0 < k.0 <= MAX_LAYER &&
    var first, next := k.1 * BatchSize(k.0), (k.1 + 1) * BatchSize(k.0);
    first <= ev && sv < next && (first < sv || ev + 1 < next)
  }

  lemma {:induction false} StraddlesAt(k: Key, sv: nat, ev: nat, v: nat)
    requires 0 < k.0 <= MAX_LAYER && InBatch(k.0, k.1, v) && sv <= v <= ev
    ensures Straddles(k, sv, ev) <==> !Whole(k.0, sv, ev, v)
  {
    Divided(v, BatchSize(k.0));
  }

  lemma {:induction false} StraddlingVersion(k: Key, sv: nat, ev: nat) returns (v: nat)
    requires Straddles(k, sv, ev) && sv <= ev
    ensures 0 < k.0 <= MAX_LAYER && sv <= v <= ev && InBatch(k.0, k.1, v)
  {
    hide BatchSize;
    var size := BatchSize(k.0);
    Successor(k.1, size);
    v := if k.1 * size < sv then sv else k.1 * size;
    DivUnique(v, size, k.1, v - k.1 * size);
  }

  /** The batch of a version at an upper layer is reached from its batch at a lower one. */
  lemma {:induction false} ReachedAbove(k: Key, upper: Key, v: nat)
    requires 0 < k.0 <= upper.0 <= MAX_LAYER && InBatch(k.0, k.1, v) && InBatch(upper.0, upper.1, v)
    ensures Reaches(k, upper)
    decreases upper.0 - k.0
  {
    hide BatchSize;
    if k.0 < upper.0 {
      InParentBatch(k.0, k.1, v);
      ReachedAbove(ParentKey(k), upper, v);
    }
  }

  lemma {:induction false} ReachesContains(k: Key, upper: Key, v: nat)
    requires 0 < k.0 <= MAX_LAYER && upper.0 <= MAX_LAYER && InBatch(k.0, k.1, v) && Reaches(k, upper)
    ensures k.0 <= upper.0 && InBatch(upper.0, upper.1, v)
    decreases MAX_LAYER - k.0
  {
    hide BatchSize;
    if k != upper {
      InParentBatch(k.0, k.1, v);
      ReachesContains(ParentKey(k), upper, v);
    }
  }

  lemma {:induction false} RequiredStraddles(res: CommitmentMap, sv: nat, ev: nat, k: Key)
    requires RequiredFor(res, sv, ev) && k in res
    ensures Straddles(k, sv, ev)
  {
    hide Straddles, FindRangeCoveringCommitments, Whole;
    var base := FindRangeCoveringCommitments(sv, ev, 1);
    ExactFragments(sv, ev, 0);
    assert ReachedFrom(base, k);
    var i :| 0 <= i < |base| && Reaches(KeyOf(base[i]), k);
    assert IsFragment(base[i], sv, ev);
    var v := base[i].range.value.start;
    FragmentHolds(sv, ev, base[i], v);
    ReachesContains(KeyOf(base[i]), k, v);
    if Whole(k.0, sv, ev, v) {
      WholeBelow(base[i].layer, k.0, sv, ev, v);
    }
    StraddlesAt(k, sv, ev, v);
  }

  lemma {:induction false} StraddlingRequired(res: CommitmentMap, sv: nat, ev: nat, k: Key)
    requires RequiredFor(res, sv, ev) && Straddles(k, sv, ev)
    ensures k in res
  {
    hide Straddles, FindRangeCoveringCommitments, Whole;
    var base := FindRangeCoveringCommitments(sv, ev, 1);
    var v := StraddlingVersion(k, sv, ev);
    StraddlesAt(k, sv, ev, v);
    NotAbove(k, sv, ev, v);
    ExactFragments(sv, ev, v);
    var i := CountCoveringWitness(base, v);
    FragmentHolds(sv, ev, base[i], v);
    if base[i].layer > k.0 {
      WholeBelow(k.0, base[i].layer - 1, sv, ev, v);
    }
    ReachedAbove(KeyOf(base[i]), k, v);
    assert ReachedFrom(base, k);
  }

  lemma {:induction false} NotAbove(k: Key, sv: nat, ev: nat, v: nat)
    requires 0 < k.0 <= MAX_LAYER && !Whole(k.0, sv, ev, v)
    ensures !InCompleteTop(sv, ev, v)
  {
    if InCompleteTop(sv, ev, v) {
      assert Whole(MAX_LAYER, sv, ev, v);
      WholeBelow(k.0, MAX_LAYER, sv, ev, v);
    }
  }

  /** The commitments that a range needs are exactly those of the batches, of any layer, that have a version in the range
      and one outside it. */
  lemma {:induction false} RequiredExactly(res: CommitmentMap, sv: nat, ev: nat, k: Key)
    requires RequiredFor(res, sv, ev)
    ensures k in res <==> Straddles(k, sv, ev)
  {
    if k in res {
      RequiredStraddles(res, sv, ev, k);
    }
    if Straddles(k, sv, ev) {
      StraddlingRequired(res, sv, ev, k);
    }
  }

  // ----- the proofs of a reply

  predicate RangeHolds(p: RangeProof, v: nat) {
    p.range.Some? && p.range.value.start <= v <= p.range.value.end
  }

  /** The range of a proof holds exactly the versions of [sv, ev] that belong to its batch, and there is no range if
      there are none. */
  ghost predicate RangeExact(p: RangeProof, sv: nat, ev: nat) {
    && (p.range.Some? ==> p.range.value.start <= p.range.value.end)
    && forall v: nat :: RangeHolds(p, v) <==> BelongsTo((p.layer, p.idx), sv, ev, v)
  }

  /** A proof lists the child batches of which the reply has a proof, each once. */
  ghost predicate DependentsExact(p: RangeProof, proofs: seq<RangeProof>) {
    && (forall i, j :: 0 <= i < j < |p.dependents| ==> p.dependents[i] != p.dependents[j])
    && forall d: nat :: d in p.dependents <==> p.layer > 1 && d / 1365 == p.idx && HasProof(proofs, (p.layer - 1, d))
  }

  ghost predicate Describes(proofs: seq<RangeProof>, sv: nat, ev: nat) {
    forall i :: 0 <= i < |proofs| ==> RangeExact(proofs[i], sv, ev) && DependentsExact(proofs[i], proofs)
  }

  lemma {:induction false} ProofRange(p: RangeProof, res: CommitmentMap, sv: nat, ev: nat, u: Updates)
    requires RequiredFor(res, sv, ev) && IsHonest(p, res, u)
    ensures RangeExact(p, sv, ev)
  {
    hide BelongsTo, RequiredFor, Commit, FullTree, OpenedNodes;
    var k := ProofKey(p);
    if p.range.Some? {
      RequiredFragment(res, sv, ev, k);
    }
    forall v: nat ensures RangeHolds(p, v) <==> BelongsTo((p.layer, p.idx), sv, ev, v) {
      RequiredRange(res, sv, ev, k, v);
    }
  }

  lemma {:induction false} ProofDependents(p: RangeProof, proofs: seq<RangeProof>, res: CommitmentMap, sv: nat, ev: nat, u: Updates)
    requires HonestProofs(proofs, res, sv, ev, u) && IsHonest(p, res, u)
    ensures DependentsExact(p, proofs)
  {
    hide Commit, FullTree, OpenedNodes;
    var k := ProofKey(p);
    forall d: nat ensures d in p.dependents <==> p.layer > 1 && d / 1365 == p.idx && HasProof(proofs, (p.layer - 1, d)) {
      assert d in res[k].dependents <==> IsChildOf(res, k, d);
      if k.0 > 1 {
        RequiredHasProof(proofs, res, u, (k.0 - 1, d));
      }
    }
  }

  lemma {:induction false} RequiredHasProof(proofs: seq<RangeProof>, res: CommitmentMap, u: Updates, k: Key)
    requires Proved(proofs, res, {}, u, true)
    ensures k in res <==> HasProof(proofs, k)
  {
    if HasProof(proofs, k) {
      var i :| 0 <= i < |proofs| && ProofKey(proofs[i]) == k;
      assert Belongs(proofs[i], res, u, true);
    }
  }

  /** Every proof of an honest reply describes itself: which versions of the range it holds, and which other proofs of
      the reply it vouches for. */
  lemma {:induction false} HonestDescribes(proofs: seq<RangeProof>, res: CommitmentMap, sv: nat, ev: nat, u: Updates)
    requires HonestProofs(proofs, res, sv, ev, u)
    ensures Describes(proofs, sv, ev)
  {
    hide RangeExact, DependentsExact, IsHonest;
    forall i | 0 <= i < |proofs| ensures RangeExact(proofs[i], sv, ev) && DependentsExact(proofs[i], proofs) {
      assert Belongs(proofs[i], res, u, true);
      ProofRange(proofs[i], res, sv, ev, u);
      ProofDependents(proofs[i], proofs, res, sv, ev, u);
    }
  }
}
