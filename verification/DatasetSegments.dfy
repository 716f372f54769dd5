/** Blocks kept in segments: what appending does, and what a range of blocks contains (dataset/writer.go, reader.go). */
module DatasetSegments {
  import opened Primitives
  import opened Arithmetic
  import opened DatasetFormat

  /** The blocks of every segment, by the first block number of the segment. */
  type Segments = map<nat, seq<Block>>

  const TWO_TO_32: nat := 0x1_0000_0000

  function SegmentBase(block: nat, size: nat): (base: nat)
    requires size > 0
    ensures base <= block < base + size
  {
    block / size * size
  }

  /** The last block number of a segment; in 32 bits it may wrap. */
  function SegmentEnd(base: nat, size: nat): nat
    requires size > 0
  {
    (base + size - 1) % TWO_TO_32
  }

  lemma {:induction false} SameSegment(n: nat, m: nat, size: nat)
    requires size > 0
    ensures SegmentBase(m, size) == SegmentBase(n, size) <==> SegmentBase(n, size) <= m < SegmentBase(n, size) + size
  {
    var base := SegmentBase(n, size);
    if base <= m < base + size {
      DivUnique(m, size, n / size, m - base);
    }
  }

  /** What was written as block n. */
  function Written(s: Segments, size: nat, n: nat): Option<Block>
    requires size > 0
  {
    var base := SegmentBase(n, size);
    if base in s && n - base < |s[base]| then Some(s[base][n - base]) else None
  }

  // ----- appending

  /** The open segment and the segments. */
  datatype WriterState = WriterState(open: Option<nat>, segments: Segments)

  datatype Call = Call(block: nat, entries: Block)

  /** Opening a segment creates it anew. */
  function Rotate(w: WriterState, base: nat): WriterState {
    if w.open == Some(base) && base in w.segments then w else WriterState(Some(base), w.segments[base := []])
  }

  predicate Accepted(w: WriterState, size: nat, block: nat)
    requires size > 0
  {
    var base := SegmentBase(block, size);
    block <= SegmentEnd(base, size) && block == base + |Rotate(w, base).segments[base]|
  }

  /** AppendBlock: rotate if needed, then append if the block is the next one of its segment. */
  function Append(w: WriterState, size: nat, c: Call): WriterState
    requires size > 0
  {
    var base := SegmentBase(c.block, size);
    var r := Rotate(w, base);
    if Accepted(w, size, c.block) then r.(segments := r.segments[base := r.segments[base] + [c.entries]]) else r
  }

  /** An append to a segment other than the open one leaves that segment with its first block or with none, whatever was
      in it, and the other segments as they were. */
  lemma {:induction false} ReopenedEmpty(w: WriterState, size: nat, c: Call)
    requires size > 0 && w.open != Some(SegmentBase(c.block, size))
    ensures var base, r := SegmentBase(c.block, size), Append(w, size, c);
            && r.open == Some(base)
            && r.segments == w.segments[base := if c.block == base && base <= (base + size - 1) % 0x1_0000_0000 then [c.entries] else []]
  {
    var base := SegmentBase(c.block, size);
    assert [] + [c.entries] == [c.entries];
    assert w.segments[base := []][base := [c.entries]] == w.segments[base := [c.entries]];
  }

  function Run(calls: seq<Call>, size: nat): WriterState
    requires size > 0
  {
    if calls == [] then WriterState(None, map[])
    else Append(Run(calls[..|calls| - 1], size), size, calls[|calls| - 1])
  }

  /** Strictly increasing block numbers. */
  predicate Increasing(calls: seq<Call>) {
    forall i, j :: 0 <= i < j < |calls| ==> calls[i].block < calls[j].block
  }

  /** What should be kept, without segments: a block is kept when it is the first of its segment, or
      follows a kept block of the same segment. */
  function Kept(calls: seq<Call>, size: nat): map<nat, Block>
    requires size > 0
  {
    if calls == [] then map[]
    else
      var c := calls[|calls| - 1];
      var before := Kept(calls[..|calls| - 1], size);
      if Follows(before, size, c.block) then before[c.block := c.entries] else before
  }

  predicate Follows(kept: map<nat, Block>, size: nat, block: nat)
    requires size > 0
  {
    var base := SegmentBase(block, size);
    block <= SegmentEnd(base, size) && (block == base || block - 1 in kept)
  }

  ghost predicate Matches(s: Segments, size: nat, kept: map<nat, Block>)
    requires size > 0
  {
    forall n: nat :: MatchesAt(s, size, kept, n)
  }

  ghost predicate MatchesAt(s: Segments, size: nat, kept: map<nat, Block>, n: nat)
    requires size > 0
  {
    Written(s, size, n) == if n in kept then Some(kept[n]) else None
  }

  /** The segments hold blocks below `next` only, the open one being the last. */
  ghost predicate Below(w: WriterState, size: nat, next: nat)
    requires size > 0
  {
    match w.open
    case None => w.segments == map[]
    case Some(o) =>
      && o in w.segments && 0 < next && o == SegmentBase(next - 1, size)
      && forall b: nat :: b in w.segments ==> EndsBy(w.segments, b, o, next)
  }

  predicate EndsBy(s: Segments, b: nat, o: nat, next: nat)
    requires b in s
  {
    b <= o && b + |s[b]| <= next
  }

  lemma {:induction false} BaseGrows(n: nat, m: nat, size: nat)
    requires size > 0 && n <= m
    ensures SegmentBase(n, size) <= SegmentBase(m, size)
  {
    Monotone(n, m, size);
    Scale(n / size, m / size, size);
  }

  /** When block numbers increase, opening another segment loses nothing. */
  lemma {:induction false} RotateNew(w: WriterState, size: nat, next: nat, block: nat)
    requires size > 0 && Below(w, size, next) && next <= block
    ensures var base := SegmentBase(block, size);
            w.open != Some(base) ==> base !in w.segments
  {
    if w.open.Some? {
      var o, base := w.open.value, SegmentBase(block, size);
      BaseGrows(next - 1, block, size);
      if base in w.segments {
        assert EndsBy(w.segments, base, o, next);
      }
    }
  }

  lemma {:induction false} RotateMatches(w: WriterState, size: nat, next: nat, block: nat, kept: map<nat, Block>)
    requires size > 0 && Below(w, size, next) && next <= block && Matches(w.segments, size, kept)
    ensures Matches(Rotate(w, SegmentBase(block, size)).segments, size, kept)
  {
    var base := SegmentBase(block, size);
    RotateNew(w, size, next, block);
    forall n: nat ensures MatchesAt(Rotate(w, base).segments, size, kept, n) {
      assert MatchesAt(w.segments, size, kept, n);
    }
  }

  /** The writer accepts a block exactly when it follows a kept one or starts a segment. */
  lemma {:induction false} AcceptedFollows(w: WriterState, size: nat, next: nat, block: nat, kept: map<nat, Block>)
    requires size > 0 && Below(w, size, next) && next <= block && Matches(w.segments, size, kept)
    ensures Accepted(w, size, block) <==> Follows(kept, size, block)
  {
    var base := SegmentBase(block, size);
    RotateNew(w, size, next, block);
    if block != base {
      SameSegment(block, block - 1, size);
      assert MatchesAt(w.segments, size, kept, block - 1);
    }
    if w.open == Some(base) {
      assert EndsBy(w.segments, base, base, next);
    }
  }

  lemma {:induction false} AppendedMatches(s: Segments, size: nat, c: Call, kept: map<nat, Block>, s': Segments, kept': map<nat, Block>)
    requires size > 0 && Matches(s, size, kept) && SegmentBase(c.block, size) in s
    requires c.block == SegmentBase(c.block, size) + |s[SegmentBase(c.block, size)]|
    requires s' == s[SegmentBase(c.block, size) := s[SegmentBase(c.block, size)] + [c.entries]]
    requires kept' == kept[c.block := c.entries]
    ensures Matches(s', size, kept')
  {
    forall n: nat ensures MatchesAt(s', size, kept', n) {
      assert MatchesAt(s, size, kept, n);
    }
  }

  lemma {:induction false} AppendBelow(w: WriterState, size: nat, next: nat, c: Call)
    requires size > 0 && Below(w, size, next) && next <= c.block
    ensures Below(Append(w, size, c), size, c.block + 1)
  {
    var base, w' := SegmentBase(c.block, size), Append(w, size, c);
    RotateNew(w, size, next, c.block);
    forall b: nat | b in w'.segments ensures EndsBy(w'.segments, b, base, c.block + 1) {
      if w.open.Some? {
        BaseGrows(next - 1, c.block, size);
        assert b in w.segments ==> EndsBy(w.segments, b, w.open.value, next);
      }
    }
  }

  lemma {:induction false} RunInvariant(calls: seq<Call>, size: nat, next: nat)
    requires size > 0 && Increasing(calls)
    requires next == if calls == [] then 0 else calls[|calls| - 1].block + 1
    ensures Below(Run(calls, size), size, next) && Matches(Run(calls, size).segments, size, Kept(calls, size))
  {
    if calls != [] {
      var k := |calls| - 1;
      var c, w, kept := calls[k], Run(calls[..k], size), Kept(calls[..k], size);
      var next' := if k == 0 then 0 else calls[k - 1].block + 1;
      RunInvariant(calls[..k], size, next');
      AppendBelow(w, size, next', c);
      RotateMatches(w, size, next', c.block, kept);
      AcceptedFollows(w, size, next', c.block, kept);
      if Follows(kept, size, c.block) {
        var r := Rotate(w, SegmentBase(c.block, size)).segments;
        AppendedMatches(r, size, c, kept, Run(calls, size).segments, Kept(calls, size));
      }
    }
  }

  /** After any appends in increasing order, what is written as block n is what was kept of it. */
  lemma {:induction false} WrittenIsKept(calls: seq<Call>, size: nat, n: nat)
    requires size > 0 && Increasing(calls)
    ensures Written(Run(calls, size).segments, size, n) ==
            if n in Kept(calls, size) then Some(Kept(calls, size)[n]) else None
  {
    RunInvariant(calls, size, if calls == [] then 0 else calls[|calls| - 1].block + 1);
    assert MatchesAt(Run(calls, size).segments, size, Kept(calls, size), n);
  }

  /** Blocks appended one after the other from the start of a segment. */
  predicate Consecutive(calls: seq<Call>, first: nat) {
    forall i :: 0 <= i < |calls| ==> calls[i].block == first + i
  }

  lemma {:induction false} NextFollows(kept: map<nat, Block>, size: nat, first: nat, block: nat)
    requires size > 0 && first <= block && SegmentBase(first, size) == first
    requires SegmentBase(block, size) + size <= TWO_TO_32 && (first < block ==> block - 1 in kept)
    ensures Follows(kept, size, block)
  {
  }

  /** They are all kept. */
  lemma {:induction false} ConsecutiveKept(calls: seq<Call>, size: nat, first: nat, n: nat)
    requires size > 0 && Consecutive(calls, first) && SegmentBase(first, size) == first
    requires calls != [] ==> SegmentBase(first + |calls| - 1, size) + size <= TWO_TO_32
    ensures n in Kept(calls, size) <==> first <= n < first + |calls|
    ensures n in Kept(calls, size) ==> Kept(calls, size)[n] == calls[n - first].entries
  {
    hide SegmentBase, Follows;
    if calls != [] {
      var k := |calls| - 1;
      if k > 0 {
        BaseGrows(first + k - 1, first + k, size);
      }
      ConsecutiveKept(calls[..k], size, first, n);
      if k > 0 {
        ConsecutiveKept(calls[..k], size, first, first + k - 1);
      }
      NextFollows(Kept(calls[..k], size), size, first, first + k);
    }
  }

  // ----- what readers rely on

  /** Segments start at multiples of the size, and blocks lie within the 32-bit bounds of theirs. */
  ghost predicate WellFormed(s: Segments, size: nat)
    requires size > 0
  {
    forall b: nat :: b in s ==> WellFormedAt(s, size, b)
  }

  predicate WellFormedAt(s: Segments, size: nat, b: nat)
    requires size > 0 && b in s
  {
    SegmentBase(b, size) == b && (s[b] != [] ==> b + |s[b]| <= SegmentEnd(b, size) + 1)
  }

  lemma {:induction false} AppendWellFormed(w: WriterState, size: nat, c: Call)
    requires size > 0 && WellFormed(w.segments, size)
    ensures WellFormed(Append(w, size, c).segments, size)
  {
    var base, s := SegmentBase(c.block, size), Append(w, size, c).segments;
    SameSegment(c.block, base, size);
    forall b: nat | b in s ensures WellFormedAt(s, size, b) {
      assert b in w.segments ==> WellFormedAt(w.segments, size, b);
    }
  }

  lemma {:induction false} RunWellFormed(calls: seq<Call>, size: nat)
    requires size > 0
    ensures WellFormed(Run(calls, size).segments, size)
  {
    if calls != [] {
      RunWellFormed(calls[..|calls| - 1], size);
      AppendWellFormed(Run(calls[..|calls| - 1], size), size, calls[|calls| - 1]);
    }
  }

  /** Every block in the segments can be encoded if all appended ones can. */
  ghost predicate AllEncodable(s: Segments) {
    forall b: nat :: b in s ==> SegmentEncodable(s[b])
  }

  predicate SegmentEncodable(blocks: seq<Block>) {
    forall i :: 0 <= i < |blocks| ==> Encodable(blocks[i])
  }

  lemma {:induction false} RunEncodable(calls: seq<Call>, size: nat)
    requires size > 0 && forall i :: 0 <= i < |calls| ==> Encodable(calls[i].entries)
    ensures AllEncodable(Run(calls, size).segments)
  {
    if calls != [] {
      var k := |calls| - 1;
      RunEncodable(calls[..k], size);
      AppendEncodable(Run(calls[..k], size), size, calls[k]);
    }
  }

  lemma {:induction false} AppendEncodable(w: WriterState, size: nat, c: Call)
    requires size > 0 && AllEncodable(w.segments) && Encodable(c.entries)
    ensures AllEncodable(Append(w, size, c).segments)
  {
    var s := Append(w, size, c).segments;
    forall b: nat | b in s ensures SegmentEncodable(s[b]) {
      assert b in w.segments ==> SegmentEncodable(w.segments[b]);
    }
  }

  /** Segment 0 is there and empty exactly when the first append was to a later block of it. */
  lemma {:induction false} ZeroSegment(calls: seq<Call>, size: nat)
    requires 0 < size <= TWO_TO_32 && Increasing(calls) && calls != []
    ensures var s := Run(calls, size).segments;
            (0 in s <==> calls[0].block < size) && (0 in s ==> (s[0] == [] <==> calls[0].block > 0))
  {
    var k := |calls| - 1;
    var c, w := calls[k], Run(calls[..k], size);
    SameSegment(0, c.block, size);
    if k > 0 {
      ZeroSegment(calls[..k], size);
      RunInvariant(calls[..k], size, calls[k - 1].block + 1);
      SameSegment(0, calls[k - 1].block, size);
      assert calls[0].block < c.block;
    }
  }

  /** The blocks written in [a, b), in ascending order. */
  function Visits(s: Segments, size: nat, a: nat, b: nat): (v: seq<(nat, Block)>)
    requires size > 0
  {
    if b <= a then []
    else
      Visits(s, size, a, b - 1) + match Written(s, size, b - 1) case None => [] case Some(block) => [(b - 1, block)]
  }

  /** Where nothing is written, nothing is visited. */
  lemma {:induction false} NothingVisited(s: Segments, size: nat, a: nat, b: nat, c: nat)
    requires size > 0 && a <= b <= c && forall n: nat :: b <= n < c ==> Written(s, size, n) == None
    ensures Visits(s, size, a, c) == Visits(s, size, a, b)
  {
    if b < c {
      NothingVisited(s, size, a, b, c - 1);
      assert Written(s, size, c - 1) == None;
    }
  }

  /** The visits of a range: every written block of it, once, in ascending order. */
  lemma {:induction false} VisitsExactly(s: Segments, size: nat, a: nat, b: nat, n: nat, block: Block)
    requires size > 0
    ensures (n, block) in Visits(s, size, a, b) <==> a <= n < b && Written(s, size, n) == Some(block)
    ensures forall i, j :: 0 <= i < j < |Visits(s, size, a, b)| ==> Visits(s, size, a, b)[i].0 < Visits(s, size, a, b)[j].0
    ensures forall i :: 0 <= i < |Visits(s, size, a, b)| ==> Visits(s, size, a, b)[i].0 < b
  {
    if a < b {
      VisitsExactly(s, size, a, b - 1, n, block);
    }
  }
}
