/** Which commitments, and which of their nodes, prove a range of versions
    (proof.go, findRangeCoveringCommitments, addDepencencyCommitments, findNodesToInterpolate). */
module RangeCover {
  import opened Arithmetic
  import opened Primitives
  import opened Heap
  import opened Layers
  import opened Cover

  datatype BlockRange = BlockRange(start: nat, end: nat)

  /** A commitment needed to prove a range: the part of the range its tree covers itself, if any,
      and the child batches whose commitments it authenticates. */
  datatype RangeCommitment = RangeCommitment(idx: nat, layer: nat, range: Option<BlockRange>, dependents: seq<nat>)

  type Key = (nat, nat)

  function KeyOf(c: RangeCommitment): Key {
    (c.layer, c.idx)
  }

  function Fragment(layer: nat, idx: nat, start: nat, end: nat): RangeCommitment {
    RangeCommitment(idx, layer, Some(BlockRange(start, end)), [])
  }

  // ----- fragments of a range

  function HasLeft(sb: nat, layer: nat): bool
    requires 0 < layer <= MAX_LAYER
  {
    sb % BatchSize(layer) != 0
  }

  function HasRight(eb: nat, layer: nat): bool
    requires 0 < layer <= MAX_LAYER
  {
    eb % BatchSize(layer) != BatchSize(layer) - 1
  }

  /** The first whole batch of a layer at or after sb, as a version. */
  function AfterLeft(sb: nat, layer: nat): nat
    requires 0 < layer <= MAX_LAYER
  {
    RoundedUp(sb, BatchSize(layer))
  }

  function BeforeRight(eb: nat, layer: nat): int
    requires 0 < layer <= MAX_LAYER
  {
    RoundedDown(eb, BatchSize(layer))
  }

  /** The range lies within one batch of the layer and is not all of it. */
  predicate InOnePart(sb: nat, eb: nat, layer: nat)
    requires 0 < layer <= MAX_LAYER
  {
    sb / BatchSize(layer) == eb / BatchSize(layer) && (HasLeft(sb, layer) || HasRight(eb, layer))
  }

  predicate HasRest(sb: nat, eb: nat, layer: nat)
    requires 0 < layer <= MAX_LAYER
  {
    AfterLeft(sb, layer) < BeforeRight(eb, layer) && layer < MAX_LAYER
  }

  function FindRangeCoveringCommitments(sb: nat, eb: nat, layer: nat): seq<RangeCommitment>
    requires sb <= eb && 0 < layer <= MAX_LAYER
    decreases MAX_LAYER - layer
  {
    if InOnePart(sb, eb, layer) then [Fragment(layer, sb / BatchSize(layer), sb, eb)]
    else
      var upper :=
        if HasRest(sb, eb, layer) then
          Trimmed(sb, eb, layer);
          FindRangeCoveringCommitments(AfterLeft(sb, layer), BeforeRight(eb, layer), layer + 1)
        else [];
      FragmentsAt(sb, eb, layer) + upper
  }

  /** The parts of the range before its first and after its last whole batch of a layer. */
  function FragmentsAt(sb: nat, eb: nat, layer: nat): seq<RangeCommitment>
    requires 0 < layer <= MAX_LAYER
  {
    (if HasLeft(sb, layer) then [Fragment(layer, sb / BatchSize(layer), sb, AfterLeft(sb, layer) - 1)] else []) +
    (if HasRight(eb, layer) then [Fragment(layer, eb / BatchSize(layer), BeforeRight(eb, layer) + 1, eb)] else [])
  }

  predicate Covers(c: RangeCommitment, v: nat) {
    c.range.Some? && c.range.value.start <= v <= c.range.value.end
  }

  function CountCovering(cs: seq<RangeCommitment>, v: nat): nat {
    if cs == [] then 0 else (if Covers(cs[0], v) then 1 else 0) + CountCovering(cs[1..], v)
  }

  lemma {:induction false} CountCoveringConcat(a: seq<RangeCommitment>, b: seq<RangeCommitment>, v: nat)
    ensures CountCovering(a + b, v) == CountCovering(a, v) + CountCovering(b, v)
  {
    if a == [] {
      assert a + b == b;
    } else {
      assert (a + b)[1..] == a[1..] + b;
      CountCoveringConcat(a[1..], b, v);
    }
  }

  /** Version v belongs to a top-layer batch that lies entirely within the range. */
  predicate InCompleteTop(sb: nat, eb: nat, v: nat) {
    var top := BatchSize(MAX_LAYER);
    sb <= v / top * top && (v / top + 1) * top - 1 <= eb
  }

  /** The range consists of whole batches of a layer. */
  predicate Aligned(sb: nat, eb: nat, layer: nat)
    requires layer <= MAX_LAYER
  {
    sb % BatchSize(layer) == 0 && (eb + 1) % BatchSize(layer) == 0
  }

  lemma {:induction false} Trimmed(sb: nat, eb: nat, layer: nat)
    requires sb <= eb && 0 < layer <= MAX_LAYER
    requires !InOnePart(sb, eb, layer)
    ensures 0 <= BeforeRight(eb, layer) <= eb && sb <= AfterLeft(sb, layer) <= BeforeRight(eb, layer) + 1
    ensures Aligned(AfterLeft(sb, layer), BeforeRight(eb, layer), layer)
    ensures AfterLeft(sb, layer) != BeforeRight(eb, layer)
  {
    TrimmedBySize(sb, eb, BatchSize(layer));
    RoundedUpValue(sb, BatchSize(layer));
    RoundedDownMultiple(eb, BatchSize(layer));
  }

  function RoundedUp(x: nat, size: nat): nat
    requires size > 0
  {
    if x % size != 0 then (x / size + 1) * size else x
  }

  function RoundedDown(x: nat, size: nat): int
    requires size > 0
  {
    if x % size != size - 1 then x / size * size - 1 else x
  }

  lemma {:induction false} RoundedUpValue(x: nat, size: nat)
    requires size > 0
    ensures RoundedUp(x, size) == if x % size != 0 then x / size * size + size else x
    ensures RoundedUp(x, size) % size == 0
  {
    Divided(x, size);
    if x % size != 0 {
      Multiple(x / size + 1, size);
    }
  }

  lemma {:induction false} RoundedDownValue(x: nat, size: nat)
    requires size > 0
    ensures RoundedDown(x, size) == if x % size != size - 1 then x / size * size - 1 else x
  {
  }

  lemma {:induction false} RoundedDownMultiple(x: nat, size: nat)
    requires size > 0
    ensures (RoundedDown(x, size) + 1) % size == 0
  {
    if x % size != size - 1 {
      Multiple(x / size, size);
    } else {
      Divided(x, size);
      Multiple(x / size + 1, size);
    }
  }

  lemma {:induction false} TrimmedBySize(sb: nat, eb: nat, size: nat)
    requires sb <= eb && size > 1
    requires !(sb / size == eb / size && (sb % size != 0 || eb % size != size - 1))
    ensures 0 <= RoundedDown(eb, size) <= eb && sb <= RoundedUp(sb, size) <= RoundedDown(eb, size) + 1
    ensures RoundedUp(sb, size) != RoundedDown(eb, size)
  {
    hide *;
    var p, q := sb / size, eb / size;
    Divided(sb, size);
    Divided(eb, size);
    Scale(q + 1, p, size);
    Scale(p + 1, q, size);
    RoundedUpValue(sb, size);
    RoundedDownValue(eb, size);
    Between(sb, eb, size, p, q, p * size, q * size);
    RoundedDownMultiple(eb, size);
    if RoundedUp(sb, size) == RoundedDown(eb, size) {
      NotAdjacent(RoundedUp(sb, size), RoundedDown(eb, size), size);
    }
  }

  lemma {:induction false} Between(sb: nat, eb: nat, size: nat, p: nat, q: nat, ps: nat, qs: nat)
    requires sb <= eb && ps <= sb < ps + size && qs <= eb < qs + size
    requires p == q ==> ps == qs && sb == ps && eb == qs + size - 1
    requires p + 1 <= q ==> ps + size <= qs
    requires q + 1 <= p ==> qs + size <= ps
    ensures var x := if sb != ps then ps + size else sb;
            var y := if eb != qs + size - 1 then qs - 1 else eb;
            0 <= y <= eb && sb <= x <= y + 1
  {
  }

  lemma {:induction false} NotAdjacent(x: nat, y: nat, size: nat)
    requires size > 1 && x % size == 0 && (y + 1) % size == 0
    ensures x != y
  {
    DivUnique(x + 1, size, x / size, 1);
  }

  lemma {:induction false} UpLeast(x: nat, size: nat, k: nat)
    requires size > 0
    ensures x <= k * size <==> RoundedUp(x, size) <= k * size
  {
    var p := x / size;
    Divided(x, size);
    Scale(k, p, size);
    Scale(p + 1, k, size);
    RoundedUpValue(x, size);
    NextMultiple(x, size, p * size, k * size, k <= p);
  }

  lemma {:induction false} DownGreatest(x: nat, size: nat, k: nat)
    requires size > 0
    ensures k * size <= x + 1 <==> k * size <= RoundedDown(x, size) + 1
  {
    var p := x / size;
    Divided(x, size);
    Scale(k, p, size);
    Scale(p + 1, k, size);
    RoundedDownValue(x, size);
    NextMultiple(x, size, p * size, k * size, k <= p);
  }

  lemma {:induction false} NextMultiple(x: nat, size: nat, ps: nat, ks: nat, below: bool)
    requires ps <= x < ps + size
    requires if below then ks <= ps else ps + size <= ks
    ensures x <= ks <==> (if x != ps then ps + size else x) <= ks
    ensures ks <= x + 1 <==> ks <= if x != ps + size - 1 then ps else x + 1
  {
  }

  lemma {:induction false} TopMultiple(layer: nat, b: nat) returns (k: nat)
    requires 0 < layer <= MAX_LAYER
    ensures b * BatchSize(MAX_LAYER) == k * BatchSize(layer)
  {
    k := if layer == 1 then b * L2 * L2 * L2 else if layer == 2 then b * L2 * L2 else if layer == 3 then b * L2 else b;
  }

  /** Cutting off the fragments of a layer does not change which top batches are complete. */
  lemma {:induction false} TrimmedTop(sb: nat, eb: nat, layer: nat, v: nat)
    requires 0 < layer <= MAX_LAYER && 0 <= BeforeRight(eb, layer)
    ensures InCompleteTop(sb, eb, v) <==> InCompleteTop(AfterLeft(sb, layer), BeforeRight(eb, layer), v)
  {
    var b := v / BatchSize(MAX_LAYER);
    var k := TopMultiple(layer, b);
    var k' := TopMultiple(layer, b + 1);
    UpLeast(sb, BatchSize(layer), k);
    DownGreatest(eb, BatchSize(layer), k');
  }

  /** A range within one batch, but not all of it, contains no complete top batch. */
  lemma {:induction false} NoTopInPart(sb: nat, eb: nat, layer: nat, v: nat)
    requires sb <= eb && 0 < layer <= MAX_LAYER && InOnePart(sb, eb, layer)
    ensures !InCompleteTop(sb, eb, v)
  {
  }

  /** In a range of whole top batches every version lies in a complete one. */
  lemma {:induction false} WholeTops(sb: nat, eb: nat, v: nat)
    requires Aligned(sb, eb, MAX_LAYER) && sb <= v <= eb
    ensures InCompleteTop(sb, eb, v)
  {
  }

  // ----- every version is covered once

  lemma {:induction false} CountFragmentsAt(sb: nat, eb: nat, layer: nat, rest: seq<RangeCommitment>, v: nat)
    requires 0 < layer <= MAX_LAYER
    ensures CountCovering(FragmentsAt(sb, eb, layer) + rest, v) ==
            (if HasLeft(sb, layer) && sb <= v < AfterLeft(sb, layer) then 1 else 0) +
            (if HasRight(eb, layer) && BeforeRight(eb, layer) < v <= eb then 1 else 0) +
            CountCovering(rest, v)
  {
    var l := if HasLeft(sb, layer) then [Fragment(layer, sb / BatchSize(layer), sb, AfterLeft(sb, layer) - 1)] else [];
    var r := if HasRight(eb, layer) then [Fragment(layer, eb / BatchSize(layer), BeforeRight(eb, layer) + 1, eb)] else [];
    CountCoveringConcat(l + r, rest, v);
    CountCoveringConcat(l, r, v);
  }

  lemma {:induction false} FragmentsCount(sb: nat, eb: nat, layer: nat, v: nat)
    requires sb <= eb && 0 < layer <= MAX_LAYER
    ensures CountCovering(FindRangeCoveringCommitments(sb, eb, layer), v) ==
            if sb <= v <= eb && !InCompleteTop(sb, eb, v) then 1 else 0
    decreases MAX_LAYER - layer
  {
    if InOnePart(sb, eb, layer) {
      NoTopInPart(sb, eb, layer, v);
    } else {
      Trimmed(sb, eb, layer);
      if HasRest(sb, eb, layer) {
        FragmentsCount(AfterLeft(sb, layer), BeforeRight(eb, layer), layer + 1, v);
      }
      FragmentsCountStep(sb, eb, layer, v);
    }
  }

  lemma {:induction false} FragmentsCountStep(sb: nat, eb: nat, layer: nat, v: nat)
    requires sb <= eb && 0 < layer <= MAX_LAYER && !InOnePart(sb, eb, layer)
    requires 0 <= BeforeRight(eb, layer)
    requires AfterLeft(sb, layer) <= BeforeRight(eb, layer) + 1 && AfterLeft(sb, layer) != BeforeRight(eb, layer)
    requires HasRest(sb, eb, layer) ==>
               var (sb', eb') := (AfterLeft(sb, layer), BeforeRight(eb, layer));
               CountCovering(FindRangeCoveringCommitments(sb', eb', layer + 1), v) ==
               if sb' <= v <= eb' && !InCompleteTop(sb', eb', v) then 1 else 0
    ensures CountCovering(FindRangeCoveringCommitments(sb, eb, layer), v) ==
            if sb <= v <= eb && !InCompleteTop(sb, eb, v) then 1 else 0
  {
    var sb', eb' := AfterLeft(sb, layer), BeforeRight(eb, layer);
    Trimmed(sb, eb, layer);
    TrimmedTop(sb, eb, layer, v);
    TopIsInside(sb', eb', v);
    if HasRest(sb, eb, layer) {
      CountFragmentsAt(sb, eb, layer, FindRangeCoveringCommitments(sb', eb', layer + 1), v);
    } else {
      CountFragmentsAt(sb, eb, layer, [], v);
      if sb' <= v <= eb' {
        WholeTops(sb', eb', v);
      }
    }
  }

  lemma {:induction false} TopIsInside(sb: nat, eb: nat, v: nat)
    ensures InCompleteTop(sb, eb, v) ==> sb <= v <= eb
  {
  }

  // ----- shape of the fragments

  /** A fragment of [sv, ev]: a range of whole child batches inside one batch, and that batch holds
      an end of the range. */
  ghost predicate IsFragment(c: RangeCommitment, sv: nat, ev: nat) {
    && 0 < c.layer <= MAX_LAYER
    && c.dependents == [] && c.range.Some?
    && var (start, end) := (c.range.value.start, c.range.value.end);
    && sv <= start <= end <= ev
    && InBatch(c.layer, c.idx, start) && InBatch(c.layer, c.idx, end)
    && Aligned(start, end, c.layer - 1)
    && AtEnd(c.layer, c.idx, sv, ev)
  }

  predicate AtEnd(layer: nat, idx: nat, sv: nat, ev: nat)
    requires layer <= MAX_LAYER
  {
    InBatch(layer, idx, sv) || InBatch(layer, idx, ev)
  }

  /** What is left of [sv, ev] after the fragments below a layer. */
  ghost predicate Remainder(sb: nat, eb: nat, layer: nat, sv: nat, ev: nat)
    requires 0 < layer <= MAX_LAYER
  {
    && sv <= sb <= eb <= ev && Aligned(sb, eb, layer - 1)
    && sb - sv < BatchSize(layer - 1) && ev - eb < BatchSize(layer - 1)
  }

  lemma {:induction false} SizeStep(layer: nat)
    requires 0 < layer <= MAX_LAYER
    ensures BatchSize(layer) == BatchSize(layer - 1) * Arity(layer)
    ensures 1 < BatchSize(layer) && BatchSize(layer - 1) < BatchSize(layer)
  {
  }

  lemma {:induction false} WholeChildren(x: nat, layer: nat)
    requires 0 < layer <= MAX_LAYER
    ensures x % BatchSize(layer) % BatchSize(layer - 1) == x % BatchSize(layer - 1)
    ensures 1 < BatchSize(layer) && BatchSize(layer - 1) < BatchSize(layer)
  {
    SizeStep(layer);
    ModMod(x, BatchSize(layer), BatchSize(layer - 1), Arity(layer));
  }

  /** A multiple of the child size that is not a multiple of the size is a child size past one. */
  lemma {:induction false} PastMultiple(x: nat, layer: nat)
    requires 0 < layer <= MAX_LAYER && x % BatchSize(layer - 1) == 0
    ensures x % BatchSize(layer) != 0 ==> x % BatchSize(layer) >= BatchSize(layer - 1)
    ensures x % BatchSize(layer) <= BatchSize(layer) - BatchSize(layer - 1)
  {
    SizeStep(layer);
    WholeChildren(x, layer);
    Divided(x, BatchSize(layer));
    MultipleBelow(x % BatchSize(layer), BatchSize(layer), BatchSize(layer - 1), Arity(layer));
  }

  lemma {:induction false} LeftFragment(sb: nat, eb: nat, layer: nat, sv: nat, ev: nat)
    requires 0 < layer <= MAX_LAYER && Remainder(sb, eb, layer, sv, ev)
    ensures HasLeft(sb, layer) ==> InBatch(layer, sb / BatchSize(layer), sv)
    ensures HasLeft(sb, layer) ==> AfterLeft(sb, layer) > sb && InBatch(layer, sb / BatchSize(layer), AfterLeft(sb, layer) - 1)
    ensures AfterLeft(sb, layer) - sv < BatchSize(layer)
  {
    var size := BatchSize(layer);
    WholeChildren(sb, layer);
    PastMultiple(sb, layer);
    Divided(sb, size);
    RoundedUpValue(sb, size);
    if HasLeft(sb, layer) {
      DivUnique(sv, size, sb / size, sv - sb / size * size);
      DivUnique(AfterLeft(sb, layer) - 1, size, sb / size, size - 1);
    }
  }

  lemma {:induction false} RightFragment(sb: nat, eb: nat, layer: nat, sv: nat, ev: nat)
    requires 0 < layer <= MAX_LAYER && Remainder(sb, eb, layer, sv, ev)
    ensures HasRight(eb, layer) ==> InBatch(layer, eb / BatchSize(layer), ev)
    ensures HasRight(eb, layer) ==> BeforeRight(eb, layer) < eb && InBatch(layer, eb / BatchSize(layer), BeforeRight(eb, layer) + 1)
    ensures ev - BeforeRight(eb, layer) < BatchSize(layer)
  {
    var size := BatchSize(layer);
    EndPastMultiple(eb, layer);
    Divided(eb, size);
    RoundedDownValue(eb, size);
    if HasRight(eb, layer) {
      DivUnique(ev, size, eb / size, ev - eb / size * size);
      DivUnique(eb / size * size, size, eb / size, 0);
    }
  }

  lemma {:induction false} EndPastMultiple(x: nat, layer: nat)
    requires 0 < layer <= MAX_LAYER && (x + 1) % BatchSize(layer - 1) == 0
    ensures x % BatchSize(layer) != BatchSize(layer) - 1 ==> x % BatchSize(layer) + BatchSize(layer - 1) < BatchSize(layer)
    ensures x % BatchSize(layer) + 1 >= BatchSize(layer - 1)
  {
    var size, small := BatchSize(layer), BatchSize(layer - 1);
    SizeStep(layer);
    Divided(x, size);
    if x % size != size - 1 {
      DivUnique(x + 1, size, x / size, x % size + 1);
      PastMultiple(x + 1, layer);
      ModMod(x + 1, size, small, Arity(layer));
      MultipleBelow(x % size + 1, size, small, Arity(layer));
    }
  }

  ghost predicate AreFragments(cs: seq<RangeCommitment>, layer: nat, sv: nat, ev: nat) {
    && (forall c :: c in cs ==> IsFragment(c, sv, ev) && layer <= c.layer)
    && DistinctKeys(cs)
  }

  predicate DistinctKeys(cs: seq<RangeCommitment>) {
    forall i, j :: 0 <= i < j < |cs| ==> KeyOf(cs[i]) != KeyOf(cs[j])
  }

  lemma {:induction false} LeftIsFragment(sb: nat, eb: nat, layer: nat, sv: nat, ev: nat)
    requires 0 < layer <= MAX_LAYER && Remainder(sb, eb, layer, sv, ev) && HasLeft(sb, layer)
    requires AfterLeft(sb, layer) <= eb + 1
    ensures AfterLeft(sb, layer) > sb
    ensures IsFragment(Fragment(layer, sb / BatchSize(layer), sb, AfterLeft(sb, layer) - 1), sv, ev)
  {
    LeftFragment(sb, eb, layer, sv, ev);
    RoundedUpValue(sb, BatchSize(layer));
    WholeChildren(AfterLeft(sb, layer), layer);
  }

  lemma {:induction false} RightIsFragment(sb: nat, eb: nat, layer: nat, sv: nat, ev: nat)
    requires 0 < layer <= MAX_LAYER && Remainder(sb, eb, layer, sv, ev) && HasRight(eb, layer)
    requires sb <= BeforeRight(eb, layer) + 1
    ensures IsFragment(Fragment(layer, eb / BatchSize(layer), BeforeRight(eb, layer) + 1, eb), sv, ev)
  {
    RightFragment(sb, eb, layer, sv, ev);
    RoundedDownMultiple(eb, BatchSize(layer));
    WholeChildren(BeforeRight(eb, layer) + 1, layer);
  }

  lemma {:induction false} FragmentsAtShape(sb: nat, eb: nat, layer: nat, sv: nat, ev: nat)
    requires 0 < layer <= MAX_LAYER && Remainder(sb, eb, layer, sv, ev)
    requires !InOnePart(sb, eb, layer)
    ensures AreFragments(FragmentsAt(sb, eb, layer), layer, sv, ev)
    ensures forall c :: c in FragmentsAt(sb, eb, layer) ==> c.layer == layer
  {
    Trimmed(sb, eb, layer);
    if HasLeft(sb, layer) {
      LeftIsFragment(sb, eb, layer, sv, ev);
    }
    if HasRight(eb, layer) {
      RightIsFragment(sb, eb, layer, sv, ev);
    }
    var l := if HasLeft(sb, layer) then [Fragment(layer, sb / BatchSize(layer), sb, AfterLeft(sb, layer) - 1)] else [];
    var r := if HasRight(eb, layer) then [Fragment(layer, eb / BatchSize(layer), BeforeRight(eb, layer) + 1, eb)] else [];
    JoinFragments(l, r, layer, sv, ev);
  }

  lemma {:induction false} JoinFragments(l: seq<RangeCommitment>, r: seq<RangeCommitment>, layer: nat, sv: nat, ev: nat)
    requires |l| <= 1 && |r| <= 1
    requires forall c :: c in l + r ==> IsFragment(c, sv, ev) && c.layer == layer
    requires |l| == |r| == 1 ==> l[0].idx != r[0].idx
    ensures AreFragments(l + r, layer, sv, ev)
  {
  }

  lemma {:induction false} AppendFragments(a: seq<RangeCommitment>, b: seq<RangeCommitment>, layer: nat, sv: nat, ev: nat)
    requires AreFragments(a, layer, sv, ev) && AreFragments(b, layer + 1, sv, ev)
    requires forall c :: c in a ==> c.layer == layer
    ensures AreFragments(a + b, layer, sv, ev)
  {
    forall i, j | 0 <= i < j < |a + b| ensures KeyOf((a + b)[i]) != KeyOf((a + b)[j]) {
      if i < |a| <= j {
        assert (a + b)[i] in a && (a + b)[j] in b;
      }
    }
  }

  lemma {:induction false} OnlyFragment(sb: nat, eb: nat, layer: nat, sv: nat, ev: nat)
    requires 0 < layer <= MAX_LAYER && Remainder(sb, eb, layer, sv, ev)
    requires InOnePart(sb, eb, layer)
    ensures AreFragments([Fragment(layer, sb / BatchSize(layer), sb, eb)], layer, sv, ev)
  {
    LeftFragment(sb, eb, layer, sv, ev);
    RightFragment(sb, eb, layer, sv, ev);
  }

  lemma {:induction false} NextRemainder(sb: nat, eb: nat, layer: nat, sv: nat, ev: nat)
    requires 0 < layer < MAX_LAYER && Remainder(sb, eb, layer, sv, ev)
    requires !InOnePart(sb, eb, layer)
    requires AfterLeft(sb, layer) <= BeforeRight(eb, layer)
    ensures Remainder(AfterLeft(sb, layer), BeforeRight(eb, layer), layer + 1, sv, ev)
  {
    Trimmed(sb, eb, layer);
    LeftFragment(sb, eb, layer, sv, ev);
    RightFragment(sb, eb, layer, sv, ev);
  }

  /** The three cases of the recursion. */
  lemma {:induction false} UnfoldFragments(sb: nat, eb: nat, layer: nat, sv: nat, ev: nat)
    requires 0 < layer <= MAX_LAYER && Remainder(sb, eb, layer, sv, ev)
    ensures sb <= eb
    ensures InOnePart(sb, eb, layer) ==>
              FindRangeCoveringCommitments(sb, eb, layer) == [Fragment(layer, sb / BatchSize(layer), sb, eb)]
    ensures !InOnePart(sb, eb, layer) && !HasRest(sb, eb, layer) ==>
              FindRangeCoveringCommitments(sb, eb, layer) == FragmentsAt(sb, eb, layer)
    ensures !InOnePart(sb, eb, layer) && HasRest(sb, eb, layer) ==>
              && layer < MAX_LAYER && AfterLeft(sb, layer) <= BeforeRight(eb, layer)
              && FindRangeCoveringCommitments(sb, eb, layer) ==
                 FragmentsAt(sb, eb, layer) + FindRangeCoveringCommitments(AfterLeft(sb, layer), BeforeRight(eb, layer), layer + 1)
  {
  }

  lemma {:induction false} FragmentsShape(sb: nat, eb: nat, layer: nat, sv: nat, ev: nat)
    requires 0 < layer <= MAX_LAYER && Remainder(sb, eb, layer, sv, ev)
    ensures AreFragments(FindRangeCoveringCommitments(sb, eb, layer), layer, sv, ev)
    decreases MAX_LAYER - layer
  {
    hide *;
    UnfoldFragments(sb, eb, layer, sv, ev);
    if InOnePart(sb, eb, layer) {
      OnlyFragment(sb, eb, layer, sv, ev);
    } else {
      FragmentsAtShape(sb, eb, layer, sv, ev);
      if HasRest(sb, eb, layer) {
        NextRemainder(sb, eb, layer, sv, ev);
        FragmentsShape(AfterLeft(sb, layer), BeforeRight(eb, layer), layer + 1, sv, ev);
        AppendFragments(FragmentsAt(sb, eb, layer),
                        FindRangeCoveringCommitments(AfterLeft(sb, layer), BeforeRight(eb, layer), layer + 1), layer, sv, ev);
      }
    }
  }

  /** The fragments of a range: each version of the range lies in exactly one of them unless its
      whole top-layer batch lies in the range, and then in none; other versions lie in none. */
  lemma {:induction false} ExactFragments(sv: nat, ev: nat, v: nat)
    requires sv <= ev
    ensures AreFragments(FindRangeCoveringCommitments(sv, ev, 1), 1, sv, ev)
    ensures CountCovering(FindRangeCoveringCommitments(sv, ev, 1), v) ==
            if sv <= v <= ev && !InCompleteTop(sv, ev, v) then 1 else 0
  {
    assert Remainder(sv, ev, 1, sv, ev);
    FragmentsShape(sv, ev, 1, sv, ev);
    FragmentsCount(sv, ev, 1, v);
  }

  // ----- the nodes that cover a fragment

  /** The fragment as leaves of its batch tree. */
  function FirstLeaf(c: RangeCommitment): int
    requires 0 < c.layer <= MAX_LAYER && c.range.Some?
  {
    c.range.value.start / BatchSize(c.layer - 1) - c.idx * Arity(c.layer)
  }

  function LastLeaf(c: RangeCommitment): int
    requires 0 < c.layer <= MAX_LAYER && c.range.Some?
  {
    c.range.value.end / BatchSize(c.layer - 1) - c.idx * Arity(c.layer)
  }

  predicate InTree(c: RangeCommitment) {
    0 < c.layer <= MAX_LAYER && (c.range.Some? ==> 0 <= FirstLeaf(c) <= LastLeaf(c) < Arity(c.layer))
  }

  function CoverNodes(c: RangeCommitment): seq<nat>
    requires InTree(c)
  {
    if c.range == None then []
    else CoverFrom(FirstLeaf(c) + Arity(c.layer) - 1, LastLeaf(c) + Arity(c.layer) - 1)
  }

  function SlotNodes(dependents: seq<nat>): seq<nat> {
    seq(|dependents|, i requires 0 <= i < |dependents| => Slot(dependents[i] % L2))
  }

  /** The nodes of a commitment's tree that a proof opens. */
  function OpenedNodes(c: RangeCommitment): seq<nat>
    requires InTree(c)
  {
    SlotNodes(c.dependents) + CoverNodes(c)
  }

  lemma {:induction false} LeafOfVersion(layer: nat, b: nat, v: nat)
    requires 0 < layer <= MAX_LAYER && InBatch(layer, b, v)
    ensures v / BatchSize(layer - 1) % Arity(layer) == v / BatchSize(layer - 1) - b * Arity(layer)
    ensures 0 <= v / BatchSize(layer - 1) - b * Arity(layer) < Arity(layer)
  {
    BatchOfBatch(layer, v);
    Divided(v / BatchSize(layer - 1), Arity(layer));
  }

  lemma {:induction false} FragmentInTree(c: RangeCommitment, sv: nat, ev: nat)
    requires IsFragment(c, sv, ev)
    ensures InTree(c)
  {
    LeafOfVersion(c.layer, c.idx, c.range.value.start);
    LeafOfVersion(c.layer, c.idx, c.range.value.end);
    Monotone(c.range.value.start, c.range.value.end, BatchSize(c.layer - 1));
  }

  /** Whole child batches: comparing child indices is comparing versions. */
  lemma {:induction false} ChildCompare(start: nat, end: nat, v: nat, size: nat)
    requires size > 0 && start % size == 0 && (end + 1) % size == 0
    ensures start / size <= v / size <==> start <= v
    ensures v / size <= end / size <==> v <= end
  {
    var p, q := start / size, v / size;
    Divided(start, size);
    Divided(v, size);
    Divided(end, size);
    Divided(end + 1, size);
    Scale(p, q, size);
    Scale(q + 1, p, size);
    LastOfMultiple(end, size);
    Scale(end / size + 1, q, size);
    Scale(q, end / size, size);
  }

  lemma {:induction false} LastOfMultiple(end: nat, size: nat)
    requires size > 0 && (end + 1) % size == 0
    ensures end == end / size * size + size - 1
  {
    Divided(end, size);
    Divided(end + 1, size);
    if end % size < size - 1 {
      DivUnique(end + 1, size, end / size, end % size + 1);
    }
  }

  /** How many opened covering nodes of the commitment have version v beneath them. */
  function CountBeneath(c: RangeCommitment, v: nat): nat
    requires InTree(c)
  {
    if InBatch(c.layer, c.idx, v) then CountAboveLeaf(CoverNodes(c), Arity(c.layer), v / BatchSize(c.layer - 1) % Arity(c.layer))
    else 0
  }

  /** The covering nodes of a fragment have exactly its versions beneath them, each beneath one. */
  lemma {:induction false} FragmentCover(c: RangeCommitment, sv: nat, ev: nat, v: nat)
    requires IsFragment(c, sv, ev)
    ensures InTree(c)
    ensures CountBeneath(c, v) == if Covers(c, v) then 1 else 0
  {
    FragmentInTree(c, sv, ev);
    var n, size := Arity(c.layer), BatchSize(c.layer - 1);
    CoverProperties(n, FirstLeaf(c), LastLeaf(c));
    if InBatch(c.layer, c.idx, v) {
      var j := v / size % n;
      LeafOfVersion(c.layer, c.idx, v);
      ChildCompare(c.range.value.start, c.range.value.end, v, size);
      assert CountAboveLeaf(CoverNodes(c), n, j) == if FirstLeaf(c) <= j <= LastLeaf(c) then 1 else 0;
    } else if Covers(c, v) {
      Monotone(c.range.value.start, v, BatchSize(c.layer));
      Monotone(v, c.range.value.end, BatchSize(c.layer));
    }
  }
}
