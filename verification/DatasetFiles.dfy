/** The writer and the reader of the dataset, over files (dataset/writer.go, reader.go, helpers.go). */
module DatasetObjects {
  import opened Primitives
  import opened Arithmetic
  import opened Encodings
  import opened DatasetFormat
  import opened DatasetSegments

  /** The files of a directory; a segment's two files have its first block number in their names. */
  class Directory {
    var files: map<nat, SegmentFile>

    constructor ()
      ensures files == map[]
    {
      files := map[];
    }
  }

  /** The files of the segments. */
  function FilesOf(s: Segments): (files: map<nat, SegmentFile>)
    ensures files.Keys == s.Keys && forall b: nat :: b in s ==> files[b] == FileOf(s[b])
  {
    map b | b in s :: FileOf(s[b])
  }

  lemma {:induction false} FilesUpdate(s: Segments, b: nat, blocks: seq<Block>)
    ensures FilesOf(s[b := blocks]) == FilesOf(s)[b := FileOf(blocks)]
  {
  }

  // ----- the writer

  lemma {:induction false} EncodeOneMore(es: seq<Entry>, e: Entry)
    ensures EncodeEntries(es + [e]) == EncodeEntries(es) + EncodeEntry(e)
  {
    if es == [] {
      assert es + [e] == [e] && [e][1..] == [];
    } else {
      EncodeOneMore(es[1..], e);
      assert (es + [e])[1..] == es[1..] + [e];
    }
  }

  /** The bytes of a block: the number of entries and the entries. */
  method WriteBlock(entries: Block) returns (datBuf: seq<Byte>)
    ensures datBuf == EncodeBlock(entries)
  {
    datBuf := LittleEndian(|entries|, 4);
    for i := 0 to |entries|
      invariant datBuf == LittleEndian(|entries|, 4) + EncodeEntries(entries[..i])
    {
      EncodeOneMore(entries[..i], entries[i]);
      assert entries[..i + 1] == entries[..i] + [entries[i]];
      ghost var before := datBuf;
      datBuf := datBuf + entries[i].address;
      datBuf := datBuf + Uvarint(|entries[i].balance|);
      datBuf := datBuf + entries[i].balance;
      assert datBuf == before + EncodeEntry(entries[i]);
    }
    assert entries[..|entries|] == entries;
  }

  class SegmentWriter {
    const dir: Directory
    const base: nat
    const end: nat
    var nextBlock: nat

    /** Creating the files truncates existing ones; the index starts with the offset 0. */
    constructor (dir: Directory, base: nat, end: nat)
      modifies dir
      ensures this.dir == dir && this.base == base && this.end == end && nextBlock == base
      ensures dir.files == old(dir.files)[base := FileOf([])]
    {
      this.dir, this.base, this.end, nextBlock := dir, base, end, base;
      new;
      dir.files := dir.files[base := SegmentFile([], LittleEndian(0, 8))];
    }

    method AppendBlock(block: nat, entries: Block, ghost blocks: seq<Block>) returns (ok: bool)
      requires base in dir.files && dir.files[base] == FileOf(blocks) && nextBlock == base + |blocks|
      modifies this, dir
      ensures ok <==> block <= end && block == base + |blocks|
      ensures ok ==> dir.files == old(dir.files)[base := FileOf(blocks + [entries])] && nextBlock == old(nextBlock) + 1
      ensures !ok ==> dir.files == old(dir.files) && nextBlock == old(nextBlock)
    {
      if block < base || block > end {
        return false;
      }
      if block != nextBlock {
        return false;
      }
      var file := dir.files[base];
      var datBuf := WriteBlock(entries);
      AppendedFile(blocks, entries);
      var dat := file.dat + datBuf;
      dir.files := dir.files[base := SegmentFile(dat, file.idx + LittleEndian(|dat|, 8))];
      nextBlock := nextBlock + 1;
      return true;
    }
  }

  class DatasetWriter {
    const dir: Directory
    const segmentSize: nat
    var cur: SegmentWriter?
    ghost var segments: Segments

    ghost function State(): WriterState
      reads this
    {
      WriterState(if cur == null then None else Some(cur.base), segments)
    }

    ghost predicate Valid()
      reads this, dir, cur
    {
      && segmentSize > 0 && dir.files == FilesOf(segments)
      && (cur != null ==>
        && cur.dir == dir && cur.base in segments && cur.end == SegmentEnd(cur.base, segmentSize)
        && cur.nextBlock == cur.base + |segments[cur.base]|)
    }

    constructor (dir: Directory, segmentSize: nat)
      requires segmentSize > 0 && dir.files == map[]
      ensures Valid() && this.dir == dir && this.segmentSize == segmentSize && State() == Run([], segmentSize)
    {
      this.dir, this.segmentSize, cur, segments := dir, segmentSize, null, map[];
    }

    /** Make the segment of a block the open one. */
    method RotateTo(base: nat, end: nat)
      requires Valid() && end == SegmentEnd(base, segmentSize)
      modifies this, dir
      ensures Valid() && State() == Rotate(old(State()), base)
      ensures cur != null && cur.base == base && (cur == old(cur) || fresh(cur))
    {
      if cur == null || cur.base != base {
        FilesUpdate(segments, base, []);
        cur := new SegmentWriter(dir, base, end);
        segments := segments[base := []];
      }
    }

    /** Append to the open segment. */
    method AppendOpen(block: nat, entries: Block) returns (ok: bool)
      requires Valid() && cur != null
      modifies this, dir, cur
      ensures Valid() && cur == old(cur)
      ensures var blocks := old(segments)[cur.base];
              && (ok <==> block <= cur.end && block == cur.base + |blocks|)
              && segments == if ok then old(segments)[cur.base := blocks + [entries]] else old(segments)
    {
      ghost var blocks := segments[cur.base];
      FilesUpdate(segments, cur.base, blocks + [entries]);
      ok := cur.AppendBlock(block, entries, blocks);
      if ok {
        segments := segments[cur.base := blocks + [entries]];
      }
    }

    method AppendBlock(block: nat, entries: Block) returns (ok: bool)
      requires Valid()
      modifies this, dir, cur
      ensures Valid()
      ensures State() == Append(old(State()), segmentSize, Call(block, entries))
      ensures ok <==> Accepted(old(State()), segmentSize, block)
    {
      var base := block / segmentSize * segmentSize;
      RotateTo(base, (base + segmentSize - 1) % TWO_TO_32);
      ok := AppendOpen(block, entries);
    }
  }

  // ----- the reader

  datatype SegmentReader = SegmentReader(base: nat, end: nat, dat: seq<Byte>, offsets: seq<nat>, lastWritten: nat)

  /** The reader of a segment with these blocks.  With no block it ends before its base; at base 0 that
      wraps to the largest block number. */
  ghost predicate Reads(sr: SegmentReader, base: nat, size: nat, blocks: seq<Block>)
    requires size > 0
  {
    && sr.base == base && sr.end == SegmentEnd(base, size) && sr.dat == Data(blocks)
    && AreOffsets(sr.offsets, blocks)
    && sr.lastWritten == (if blocks == [] then base + TWO_TO_32 - 1 else base + |blocks| - 1) % TWO_TO_32
  }

  ghost predicate AreOffsets(offsets: seq<nat>, blocks: seq<Block>) {
    |offsets| == |blocks| + 1 && forall i :: 0 <= i < |offsets| ==> offsets[i] == |Data(blocks[..i])|
  }

  /** Data files of less than 2^64 bytes, of blocks that can be encoded. */
  ghost predicate Readable(blocks: seq<Block>) {
    |Data(blocks)| < Bound(8) && forall i :: 0 <= i < |blocks| ==> Encodable(blocks[i])
  }

  method ReadOffsets(idx: seq<Byte>) returns (offsets: seq<nat>)
    requires |idx| % 8 == 0
    ensures |offsets| == |idx| / 8 && forall i :: 0 <= i < |offsets| ==> offsets[i] == OffsetAt(idx, i)
  {
    offsets := [];
    var n := |idx| / 8;
    for i := 0 to n
      invariant |offsets| == i && forall j :: 0 <= j < i ==> offsets[j] == OffsetAt(idx, j)
    {
      offsets := offsets + [FromLittleEndian(idx[i * 8..i * 8 + 8])];
    }
  }

  /** Parse the files of a segment. */
  method OpenFile(file: SegmentFile, base: nat, size: nat, ghost blocks: seq<Block>) returns (sr: Option<SegmentReader>)
    requires size > 0 && file == FileOf(blocks) && Readable(blocks)
    ensures sr.Some? && Reads(sr.value, base, size, blocks)
  {
    if |file.idx| % 8 != 0 || |file.idx| / 8 < 1 {
      return None;
    }
    var offsets := ReadOffsets(file.idx);
    OffsetsRead(blocks, offsets);
    var nOffsets := |offsets|;
    var lastWritten := if nOffsets == 1 then (base + TWO_TO_32 - 1) % TWO_TO_32 else (base + (nOffsets - 2)) % TWO_TO_32;
    sr := Some(SegmentReader(base, (base + size - 1) % TWO_TO_32, file.dat, offsets, lastWritten));
  }

  /** A segment that was never opened for writing has no files. */
  method OpenSegmentReader(dir: Directory, base: nat, size: nat, ghost s: Segments) returns (sr: Option<SegmentReader>)
    requires size > 0 && dir.files == FilesOf(s) && (base in s ==> Readable(s[base]))
    ensures sr.Some? <==> base in s
    ensures sr.Some? ==> Reads(sr.value, base, size, s[base])
  {
    if base !in dir.files {
      return None;
    }
    sr := OpenFile(dir.files[base], base, size, s[base]);
  }

  lemma {:induction false} OffsetsRead(blocks: seq<Block>, offsets: seq<nat>)
    requires |Data(blocks)| < Bound(8) && |offsets| == |Index(blocks)| / 8
    requires forall i :: 0 <= i < |offsets| ==> offsets[i] == OffsetAt(Index(blocks), i)
    ensures AreOffsets(offsets, blocks)
  {
    forall i | 0 <= i < |offsets| ensures offsets[i] == |Data(blocks[..i])| {
      StoredOffset(blocks, i);
    }
  }

  /** Decode a block (the second half of getBlock). */
  method ReadBlock(buf: seq<Byte>) returns (r: Option<Block>)
    ensures r == DecodeBlock(buf)
  {
    if 4 > |buf| {
      return None;
    }
    r := ReadEntries(buf, 4, FromLittleEndian(buf[..4]));
  }

  /** Decode entry by entry, from a position on. */
  method ReadEntries(buf: seq<Byte>, start: nat, count: nat) returns (r: Option<Block>)
    requires start <= |buf|
    ensures r == DecodeEntries(buf[start..], count)
  {
    var pos, out: Block := start, [];
    ghost var all, rest := DecodeEntries(buf[start..], count), buf[start..];
    PrependNothing(all);
    for j := 0 to count
      invariant 0 <= pos <= |buf| && rest == buf[pos..]
      invariant all == Prepend(out, DecodeEntries(rest, count - j))
    {
      var decoded := DecodeEntry(buf[pos..]);
      if decoded == None {
        return None;
      }
      var (e, n) := decoded.value;
      NextEntry(out, rest, count - j, e, n);
      assert rest[n..] == buf[pos + n..];
      pos, rest := pos + n, rest[n..];
      out := out + [e];
    }
    assert out + [] == out;
    return Some(out);
  }

  function Prepend(out: Block, rest: Option<Block>): Option<Block> {
    match rest
    case None => None
    case Some(b) => Some(out + b)
  }

  lemma {:induction false} PrependNothing(r: Option<Block>)
    ensures Prepend([], r) == r
  {
    if r.Some? {
      assert [] + r.value == r.value;
    }
  }

  lemma {:induction false} NextEntry(out: Block, s: seq<Byte>, count: nat, e: Entry, n: nat)
    requires count > 0 && n <= |s| && DecodeEntry(s) == Some((e, n))
    ensures Prepend(out, DecodeEntries(s, count)) == Prepend(out + [e], DecodeEntries(s[n..], count - 1))
  {
    var rest := DecodeEntries(s[n..], count - 1);
    if rest.Some? {
      assert out + ([e] + rest.value) == (out + [e]) + rest.value;
    }
  }

  /** A segment whose blocks lie within 32-bit bounds. */
  ghost predicate Bounded(base: nat, size: nat, blocks: seq<Block>)
    requires size > 0
  {
    base < TWO_TO_32 && Readable(blocks) && (blocks != [] ==> base + |blocks| <= SegmentEnd(base, size) + 1)
  }

  /** Segment 0 without blocks: its last written block number wraps. */
  predicate Wraps(base: nat, blocks: seq<Block>) {
    base == 0 && blocks == []
  }

  ghost predicate Regular(base: nat, size: nat, blocks: seq<Block>)
    requires size > 0
  {
    Bounded(base, size, blocks) && !Wraps(base, blocks)
  }

  lemma {:induction false} NoWrap(x: nat)
    requires x < TWO_TO_32
    ensures x % TWO_TO_32 == x && (x + TWO_TO_32) % TWO_TO_32 == x
  {
  }

  lemma {:induction false} LastWritten(sr: SegmentReader, size: nat, blocks: seq<Block>)
    requires size > 0 && Reads(sr, sr.base, size, blocks) && Regular(sr.base, size, blocks)
    ensures sr.lastWritten == sr.base + |blocks| - 1 && (blocks != [] ==> sr.lastWritten <= sr.end)
  {
    NoWrap((sr.base + size - 1) % TWO_TO_32);
    NoWrap(sr.base + |blocks| - 1);
  }

  /** Read the bytes between two offsets and decode them. */
  method ReadBetween(sr: SegmentReader, i: nat, ghost blocks: seq<Block>) returns (r: Option<Block>)
    requires sr.dat == Data(blocks) && AreOffsets(sr.offsets, blocks) && Readable(blocks) && i < |blocks|
    ensures r == Some(blocks[i])
  {
    StoredBlock(blocks, i);
    BlockRoundTrip(blocks[i]);
    var start, end := sr.offsets[i], sr.offsets[i + 1];
    if end < start {
      return None;
    }
    if end == start {
      return Some([]);
    }
    if end > |sr.dat| {
      return None;
    }
    r := ReadBlock(sr.dat[start..end]);
  }

  /** A block is read, refused with an error, or the program stops. */
  datatype Reading = Read(block: Block) | Refused | Stopped

  function ReadingIn(base: nat, size: nat, blocks: seq<Block>, n: nat): Reading
    requires size > 0
  {
    if base <= n < base + |blocks| then Read(blocks[n - base])
    else if Wraps(base, blocks) && n <= SegmentEnd(base, size) then Stopped
    else Refused
  }

  /** One block of a segment; in an empty segment at base 0 the program reads past the offsets. */
  method GetBlockOf(sr: SegmentReader, block: nat, size: nat, ghost blocks: seq<Block>) returns (r: Reading)
    requires size > 0 && Reads(sr, sr.base, size, blocks) && Bounded(sr.base, size, blocks)
    ensures r == ReadingIn(sr.base, size, blocks, block)
  {
    if !Wraps(sr.base, blocks) {
      LastWritten(sr, size, blocks);
    }
    if block < sr.base || block > sr.end {
      return Refused;
    }
    if block > sr.lastWritten {
      return Refused;
    }
    var i := block - sr.base;
    if i + 1 >= |sr.offsets| {
      return Stopped;
    }
    var b := ReadBetween(sr, i, blocks);
    r := if b.Some? then Read(b.value) else Refused;
  }

  /** The last block to visit in a segment with the given blocks, up to block b; a segment that does not fit into 32
      bits has no blocks. */
  predicate StopsAt(segStop: nat, end: nat, base: nat, size: nat, blocks: seq<Block>, b: nat) {
    && segStop <= end && segStop <= b
    && (if Wraps(base, blocks) then segStop == end || segStop == b else segStop < base + |blocks|)
    && (if base + size > TWO_TO_32 then segStop == end < base && blocks == []
        else end == base + size - 1 && (!Wraps(base, blocks) && segStop < end && segStop < b ==> segStop + 1 == base + |blocks|))
  }

  /** The last block to visit in a segment: its end, the end of the range, or the last one written.  The end of a
      segment that does not fit into 32 bits is before its start. */
  method SegmentStop(sr: SegmentReader, b: nat, size: nat, ghost blocks: seq<Block>) returns (segStop: nat)
    requires 0 < size < TWO_TO_32 && Reads(sr, sr.base, size, blocks) && Bounded(sr.base, size, blocks) && sr.base <= b
    ensures StopsAt(segStop, sr.end, sr.base, size, blocks, b)
  {
    if !Wraps(sr.base, blocks) {
      LastWritten(sr, size, blocks);
    }
    EndWraps(sr.base, size);
    segStop := sr.end;
    if segStop > b {
      segStop := b;
    }
    if sr.lastWritten < segStop {
      segStop := sr.lastWritten;
    }
  }

  lemma {:induction false} EndWraps(base: nat, size: nat)
    requires 0 < size < TWO_TO_32 && base < TWO_TO_32
    ensures SegmentEnd(base, size) == if base + size <= TWO_TO_32 then base + size - 1 else base + size - 1 - TWO_TO_32
  {
  }

  ghost predicate AllBounded(s: Segments, size: nat)
    requires size > 0
  {
    forall b: nat :: b in s ==> Bounded(b, size, s[b])
  }

  /** There is a segment 0 and it has no blocks. */
  predicate EmptyZero(s: Segments) {
    0 in s && s[0] == []
  }

  /** Appends in increasing order leave bounded segments, and an empty segment 0 if and only if the first
      of them was to a later block of it. */
  lemma {:induction false} RunBounded(calls: seq<Call>, size: nat)
    requires 0 < size <= TWO_TO_32 && Increasing(calls)
    requires forall i :: 0 <= i < |calls| ==> calls[i].block < TWO_TO_32 && Encodable(calls[i].entries)
    requires forall b: nat :: b in Run(calls, size).segments ==> |Data(Run(calls, size).segments[b])| < Bound(8)
    ensures AllBounded(Run(calls, size).segments, size)
    ensures EmptyZero(Run(calls, size).segments) <==> calls != [] && 0 < calls[0].block < size
  {
    if calls != [] {
      var s := Run(calls, size).segments;
      RunWellFormed(calls, size);
      RunEncodable(calls, size);
      ZeroSegment(calls, size);
      var last := calls[|calls| - 1].block;
      RunInvariant(calls, size, last + 1);
      forall b: nat | b in s ensures Bounded(b, size, s[b]) {
        assert EndsBy(s, b, SegmentBase(last, size), last + 1);
        assert WellFormedAt(s, size, b) && SegmentEncodable(s[b]);
      }
    }
  }

  /** Blocks lo .. hi are those of the segment. */
  ghost predicate Covers(s: Segments, size: nat, base: nat, blocks: seq<Block>, lo: nat, hi: nat)
    requires size > 0
  {
    forall n: nat :: lo <= n <= hi ==> WrittenAs(s, size, n, base, blocks)
  }

  ghost predicate WrittenAs(s: Segments, size: nat, n: nat, base: nat, blocks: seq<Block>)
    requires size > 0
  {
    base <= n < base + |blocks| && Written(s, size, n) == Some(blocks[n - base])
  }

  lemma {:induction false} SegmentCovers(s: Segments, size: nat, first: nat, base: nat, hi: nat)
    requires size > 0 && base == SegmentBase(first, size) && base in s
    requires hi < base + size && hi < base + |s[base]|
    ensures Covers(s, size, base, s[base], first, hi)
  {
    forall n: nat | first <= n <= hi ensures WrittenAs(s, size, n, base, s[base]) {
      SameSegment(first, n, size);
    }
  }

  lemma {:induction false} VisitOne(s: Segments, size: nat, n: nat, a: nat, es: Option<Block>)
    requires size > 0 && a <= n && Written(s, size, n) == es && es.Some?
    ensures Visits(s, size, a, n + 1) == Visits(s, size, a, n) + [(n, es.value)]
  {
  }

  /** How an iteration ends: with the range; at a segment without files; because the program stops; or at the end of
      the 32-bit numbers, with an error, by starting again at block 0, or by repeating a round for ever. */
  datatype Ending = Finished | NoSegment | Halted | PastEnd | Restarted | Stalled

  /** The first block number after those up to segStop, from first on. */
  function After(first: nat, segStop: nat): nat {
    if segStop < first then first else segStop + 1
  }

  /** Visit the blocks first .. segStop of one segment; the counter has 32 bits. */
  method VisitSegment(sr: SegmentReader, first: nat, segStop: nat, size: nat, ghost blocks: seq<Block>,
      ghost s: Segments, ghost a: nat, visited: seq<(nat, Block)>)
    returns (ended: Option<Ending>, n: nat, visited': seq<(nat, Block)>)
    requires size > 0 && Reads(sr, sr.base, size, blocks) && Bounded(sr.base, size, blocks)
    requires if Wraps(sr.base, blocks) then first <= segStop <= SegmentEnd(sr.base, size)
             else Covers(s, size, sr.base, blocks, first, segStop)
    requires first < TWO_TO_32 && segStop < TWO_TO_32 && (segStop + 1 == TWO_TO_32 ==> sr.base > 0)
    requires a <= first && visited == Visits(s, size, a, first)
    ensures ended == if Wraps(sr.base, blocks) then Some(Halted) else if first <= segStop == TWO_TO_32 - 1 then Some(PastEnd) else None
    ensures ended == None ==> n == After(first, segStop)
    ensures visited' == Visits(s, size, a, if Wraps(sr.base, blocks) then first else After(first, segStop))
  {
    hide Reads, Bounded, Covers, Visits, Written, ReadingIn;
    n, visited' := first, visited;
    ghost var next := first;
    while n <= segStop
      invariant first <= next <= After(first, segStop) && n == next % TWO_TO_32 && (Wraps(sr.base, blocks) ==> next == first)
      invariant visited' == Visits(s, size, a, next)
      decreases segStop + 2 - next
    {
      NextReading(s, size, sr.base, blocks, first, segStop, next, n);
      var es := GetBlockOf(sr, n, size, blocks);
      if es.Stopped? {
        return Some(Halted), n, visited';
      }
      if es.Refused? {
        return Some(PastEnd), n, visited';
      }
      VisitOne(s, size, next, a, Some(es.block));
      visited' := visited' + [(n, es.block)];
      n, next := (n + 1) % TWO_TO_32, next + 1;
    }
    ended := None;
  }

  /** What is read in a round: the next block, until the counter wraps. */
  lemma {:induction false} NextReading(s: Segments, size: nat, base: nat, blocks: seq<Block>, first: nat, segStop: nat, next: nat, n: nat)
    requires 0 < size && Bounded(base, size, blocks) && first <= next <= After(first, segStop) && n == next % TWO_TO_32 && n <= segStop
    requires if Wraps(base, blocks) then next == first && segStop <= SegmentEnd(base, size)
             else Covers(s, size, base, blocks, first, segStop)
    requires first < TWO_TO_32 && segStop < TWO_TO_32 && (segStop + 1 == TWO_TO_32 ==> base > 0)
    ensures Wraps(base, blocks) ==> ReadingIn(base, size, blocks, n) == Stopped
    ensures !Wraps(base, blocks) && next <= segStop ==>
              n == next && WrittenAs(s, size, next, base, blocks) && ReadingIn(base, size, blocks, n) == Read(blocks[next - base])
    ensures !Wraps(base, blocks) && next > segStop ==> next == TWO_TO_32 && ReadingIn(base, size, blocks, n) == Refused
  {
    hide Bounded, Written;
    if next <= segStop {
      NoWrap(next);
      assert !Wraps(base, blocks) ==> WrittenAs(s, size, next, base, blocks);
    }
  }

  /** The written blocks of [a, stop) have been visited, and all its segments have files. */
  ghost predicate Visited(s: Segments, size: nat, a: nat, stop: nat, visited: seq<(nat, Block)>)
    requires size > 0
  {
    visited == Visits(s, size, a, stop) && Opened(s, size, a, stop)
  }

  /** The first block number after the range. */
  function AfterRange(a: nat, b: nat): nat {
    if a <= b then b + 1 else a
  }

  ghost predicate StartsEmpty(s: Segments, size: nat, a: nat)
    requires size > 0
  {
    EmptyZero(s) && SegmentBase(a, size) == 0
  }

  lemma {:induction false} EmptyFromStart(s: Segments, size: nat, a: nat, n: nat)
    requires size > 0 && a <= n
    ensures StartsEmpty(s, size, n) ==> StartsEmpty(s, size, a)
  {
    BaseGrows(a, n, size);
  }

  /** How the round that begins with block `first` ends the iteration, if it does. */
  ghost function RoundEnding(s: Segments, size: nat, first: nat, b: nat): Option<Ending>
    requires size > 0 && SegmentBase(first, size) in s
  {
    var base := SegmentBase(first, size);
    if StartsEmpty(s, size, first) then Some(Halted)
    else if base + size < TWO_TO_32 then None
    else if base + size > TWO_TO_32 then Some(Stalled)
    else if base + |s[base]| <= b then Some(Restarted)
    else if b + 1 == TWO_TO_32 then Some(PastEnd)
    else None
  }

  /** How the iteration over [a, b] ends. */
  ghost function EndingOf(s: Segments, size: nat, a: nat, b: nat): Ending
    requires size > 0
  {
    if b < a then Finished
    else if StartsEmpty(s, size, a) then Halted
    else if !Opened(s, size, a, b + 1) then NoSegment
    else
      assert SegmentBase(b, size) in s;
      match RoundEnding(s, size, b, b)
      case None => Finished
      case Some(ending) => ending
  }

  /** An iteration that starts again at block 0 goes on as one over [0, b]; so it never ends if and only if the
      segments before a have files, too, and segment 0 has blocks. */
  lemma {:induction false} RestartsForEver(s: Segments, size: nat, a: nat, b: nat)
    requires size > 0 && EndingOf(s, size, a, b) == Restarted
    ensures EndingOf(s, size, 0, b) in {Restarted, Halted, NoSegment}
    ensures EndingOf(s, size, 0, b) == Restarted <==> !EmptyZero(s) && Opened(s, size, 0, a)
  {
    assert SegmentBase(0, size) == 0;
    assert SegmentBase(b, size) in s;
    assert Opened(s, size, 0, b + 1) <==> Opened(s, size, 0, a) && Opened(s, size, a, b + 1);
  }

  class DatasetReader {
    const dir: Directory
    const segmentSize: nat
    var cur: Option<SegmentReader>

    ghost predicate Valid(s: Segments)
      reads this, dir
    {
      && segmentSize > 0 && dir.files == FilesOf(s) && AllBounded(s, segmentSize)
      && (cur.Some? ==> cur.value.base in s && Reads(cur.value, cur.value.base, segmentSize, s[cur.value.base]))
    }

    constructor (dir: Directory, segmentSize: nat, ghost s: Segments)
      requires segmentSize > 0 && dir.files == FilesOf(s) && AllBounded(s, segmentSize)
      ensures Valid(s) && this.dir == dir && this.segmentSize == segmentSize
    {
      this.dir, this.segmentSize, cur := dir, segmentSize, None;
    }

    method EnsureSegment(block: nat, ghost s: Segments) returns (sr: Option<SegmentReader>)
      requires Valid(s)
      modifies `cur
      ensures Valid(s)
      ensures sr.Some? <==> SegmentBase(block, segmentSize) in s
      ensures sr.Some? ==>
                && sr.value.base == SegmentBase(block, segmentSize)
                && Reads(sr.value, sr.value.base, segmentSize, s[sr.value.base])
    {
      var base := block / segmentSize * segmentSize;
      if cur.Some? && cur.value.base == base {
        return cur;
      }
      cur := None;
      sr := OpenSegmentReader(dir, base, segmentSize, s);
      cur := sr;
    }

    /** Reading a block gives what was written.  If nothing was, it is an error, but in an empty segment 0
        the program stops. */
    method GetBlock(block: nat, ghost s: Segments) returns (r: Reading)
      requires Valid(s)
      modifies `cur
      ensures Valid(s)
      ensures r.Read? <==> Written(s, segmentSize, block).Some?
      ensures r.Read? ==> Some(r.block) == Written(s, segmentSize, block)
      ensures r.Stopped? <==>
                EmptyZero(s) && SegmentBase(block, segmentSize) == 0 && block <= SegmentEnd(0, segmentSize)
    {
      var sr := EnsureSegment(block, s);
      if sr == None {
        return Refused;
      }
      ghost var blocks := s[sr.value.base];
      assert Bounded(sr.value.base, segmentSize, blocks);
      r := GetBlockOf(sr.value, block, segmentSize, blocks);
    }

    /** Visit the blocks of [a, b]: the written ones, in ascending order and each once, up to the first segment
        without files.  The program stops if and only if the range starts in an empty segment 0; a range that
        reaches the end of the 32-bit numbers may end with an error or not at all. */
    method IterateRange(a: nat, b: nat, ghost s: Segments) returns (ending: Ending, visited: seq<(nat, Block)>, ghost stop: nat)
      requires Valid(s) && segmentSize < TWO_TO_32 && a < TWO_TO_32 && b < TWO_TO_32
      modifies `cur
      ensures Valid(s) && Visited(s, segmentSize, a, stop, visited) && stop <= AfterRange(a, b)
      ensures ending == EndingOf(s, segmentSize, a, b)
      ensures ending.NoSegment? ==> a <= stop <= b && SegmentBase(stop, segmentSize) !in s
      ensures ending.Halted? ==> visited == []
      ensures !ending.NoSegment? && !ending.Halted? ==> stop == AfterRange(a, b)
    {
      hide Visits, Opened, RoundEnding, StartsEmpty;
      visited, stop := [], a;
      NothingYet(s, segmentSize, a);
      var n := a;
      while n <= b
        invariant Valid(s) && a <= n && (b < a ==> n == a) && stop == (if n == a || n <= b then n else b + 1)
        invariant Visited(s, segmentSize, a, stop, visited) && (n == a ==> visited == [])
        invariant n > a ==> !StartsEmpty(s, segmentSize, a)
        invariant n > b && a <= b ==> EndingOf(s, segmentSize, a, b) == Finished
        decreases b + 1 - n
      {
        var ended;
        ghost var first := n;
        ended, n, visited := VisitNext(n, b, s, a, visited);
        stop := if ended.Some? && ended.value in {NoSegment, Halted} then first else if n <= b && ended == None then n else b + 1;
        if ended.Some? {
          return ended.value, visited, stop;
        }
      }
      return Finished, visited, stop;
    }

    /** One round: open the segment of block n and visit the rest of it. */
    method VisitNext(n: nat, b: nat, ghost s: Segments, ghost a: nat, visited: seq<(nat, Block)>)
      returns (ended: Option<Ending>, n': nat, visited': seq<(nat, Block)>)
      requires Valid(s) && segmentSize < TWO_TO_32 && a <= n <= b < TWO_TO_32
      requires Visited(s, segmentSize, a, n, visited) && (n > a ==> !StartsEmpty(s, segmentSize, a))
      modifies `cur
      ensures Valid(s)
      ensures ended.Some? ==> ended.value == EndingOf(s, segmentSize, a, b) && ended.value != Finished
      ensures ended == Some(NoSegment) ==> SegmentBase(n, segmentSize) !in s && visited' == visited
      ensures ended == Some(Halted) ==> n == a && visited' == visited
      ensures ended.Some? && ended.value !in {NoSegment, Halted} ==> Visited(s, segmentSize, a, b + 1, visited')
      ensures ended == None ==> n < n' && !StartsEmpty(s, segmentSize, a)
      ensures ended == None ==> Visited(s, segmentSize, a, if n' <= b then n' else b + 1, visited')
      ensures ended == None && n' > b ==> EndingOf(s, segmentSize, a, b) == Finished
    {
      hide Visits, Bounded, Reads, Opened, EndingOf, RoundEnding, StartsEmpty, Written;
      var sr := EnsureSegment(n, s);
      EmptyFromStart(s, segmentSize, a, n);
      if sr == None {
        MissingSegment(s, segmentSize, a, n, b);
        return Some(NoSegment), n, visited;
      }
      assert Bounded(sr.value.base, segmentSize, s[sr.value.base]);
      ended, n', visited' := IterateSegment(sr.value, n, b, s, a, visited);
      RoundDecides(s, segmentSize, a, n, b);
    }

    /** One round: the rest of a segment.  A round after which the counter is where it was is repeated for ever. */
    method IterateSegment(sr: SegmentReader, first: nat, b: nat, ghost s: Segments, ghost a: nat, visited: seq<(nat, Block)>)
      returns (ended: Option<Ending>, n: nat, visited': seq<(nat, Block)>)
      requires 0 < segmentSize < TWO_TO_32 && sr.base in s && Reads(sr, sr.base, segmentSize, s[sr.base])
      requires Bounded(sr.base, segmentSize, s[sr.base]) && sr.base == SegmentBase(first, segmentSize) && a <= first <= b < TWO_TO_32
      requires Visited(s, segmentSize, a, first, visited)
      ensures ended == RoundEnding(s, segmentSize, first, b)
      ensures ended == Some(Halted) ==> visited' == visited
      ensures ended == None ==> first < n && (n > b ==> SegmentBase(b, segmentSize) == sr.base)
      ensures ended != Some(Halted) ==> Visited(s, segmentSize, a, if ended == None && n <= b then n else b + 1, visited')
    {
      hide Visits, Reads, Opened, Written, StopsAt, Covers, RoundEnding, StartsEmpty;
      BaseGrows(first, b, segmentSize);
      ghost var blocks := s[sr.base];
      var segStop := SegmentStop(sr, b, segmentSize, blocks);
      RoundCovers(s, segmentSize, sr.base, first, b, segStop, sr.end);
      ended, n, visited' := VisitSegment(sr, first, segStop, segmentSize, blocks, s, a, visited);
      RoundHalts(s, segmentSize, sr.base, first, b);
      if ended == Some(Halted) {
        return;
      }
      RoundNumbers(s, segmentSize, sr.base, first, b, segStop, sr.end);
      if ended == None {
        n := NextCounter(n, b, segStop, sr.end);
        ended := Unmoved(first, n);
      }
      ghost var stop := if ended == None && n <= b then n else b + 1;
      RoundRest(s, segmentSize, sr.base, first, b, segStop, a, stop);
    }
  }

  /** The counter after a round: past the segment if the range goes on and the segment has no more blocks. */
  function NextCounter(n: nat, b: nat, segStop: nat, end: nat): nat {
    if n <= b && segStop < end then (end + 1) % TWO_TO_32 else n
  }

  /** What it means for the iteration when a round does not advance the counter. */
  function Unmoved(first: nat, n: nat): Option<Ending> {
    if n == first then Some(Stalled) else if n < first then Some(Restarted) else None
  }

  ghost predicate RoundOf(s: Segments, size: nat, base: nat, first: nat, b: nat) {
    && 0 < size < TWO_TO_32 && base in s && base == SegmentBase(first, size) && first <= b < TWO_TO_32
  }

  lemma {:induction false} RoundCovers(s: Segments, size: nat, base: nat, first: nat, b: nat, segStop: nat, end: nat)
    requires RoundOf(s, size, base, first, b) && StopsAt(segStop, end, base, size, s[base], b)
    ensures if Wraps(base, s[base]) then first <= segStop <= SegmentEnd(base, size) else Covers(s, size, base, s[base], first, segStop)
    ensures segStop < TWO_TO_32 && (segStop + 1 == TWO_TO_32 ==> base > 0)
  {
    hide Covers, SegmentBase;
    EndWraps(base, size);
    if !Wraps(base, s[base]) {
      SegmentCovers(s, size, first, base, segStop);
    }
  }

  lemma {:induction false} RoundHalts(s: Segments, size: nat, base: nat, first: nat, b: nat)
    requires RoundOf(s, size, base, first, b)
    ensures Wraps(base, s[base]) <==> RoundEnding(s, size, first, b) == Some(Halted)
  {
  }

  ghost predicate RoundOver(s: Segments, size: nat, base: nat, first: nat, b: nat, segStop: nat, ended: Option<Ending>, n: nat, stop: nat)
    requires RoundOf(s, size, base, first, b)
  {
    && ended == RoundEnding(s, size, first, b)
    && (ended == None ==> first < n && (n > b ==> SegmentBase(b, size) == base))
    && After(first, segStop) <= stop <= base + size
    && (After(first, segStop) < stop ==> base + |s[base]| <= After(first, segStop))
  }

  lemma {:induction false} RoundNumbers(s: Segments, size: nat, base: nat, first: nat, b: nat, segStop: nat, end: nat)
    requires RoundOf(s, size, base, first, b) && StopsAt(segStop, end, base, size, s[base], b) && !Wraps(base, s[base])
    ensures var n := NextCounter(After(first, segStop), b, segStop, end);
            var ended := if first <= segStop == TWO_TO_32 - 1 then Some(PastEnd) else Unmoved(first, n);
            RoundOver(s, size, base, first, b, segStop, ended, n, if ended == None && n <= b then n else b + 1)
  {
    hide SegmentBase, SegmentEnd;
    SameSegment(first, b, size);
  }

  /** What is left of the segment has not been written. */
  lemma {:induction false} RoundRest(s: Segments, size: nat, base: nat, first: nat, b: nat, segStop: nat, a: nat, stop: nat)
    requires RoundOf(s, size, base, first, b) && a <= first && Opened(s, size, a, first)
    requires After(first, segStop) <= stop <= base + size
    requires After(first, segStop) < stop ==> base + |s[base]| <= After(first, segStop)
    ensures Visits(s, size, a, stop) == Visits(s, size, a, After(first, segStop)) && Opened(s, size, a, stop)
  {
    RestUnwritten(s, size, first, After(first, segStop), a, stop);
  }

  lemma {:induction false} MissingSegment(s: Segments, size: nat, a: nat, n: nat, b: nat)
    requires size > 0 && a <= n <= b && SegmentBase(n, size) !in s && (n > a ==> !StartsEmpty(s, size, a))
    ensures EndingOf(s, size, a, b) == NoSegment
  {
  }

  lemma {:induction false} NothingYet(s: Segments, size: nat, a: nat)
    requires size > 0
    ensures Visited(s, size, a, a, [])
  {
  }

  /** The round that reaches the segment of b decides how the iteration ends. */
  lemma {:induction false} RoundDecides(s: Segments, size: nat, a: nat, n: nat, b: nat)
    requires size > 0 && a <= n <= b < TWO_TO_32 && Opened(s, size, a, n) && SegmentBase(n, size) in s
    requires n > a ==> !StartsEmpty(s, size, a)
    ensures RoundEnding(s, size, n, b) == Some(Halted) <==> n == a && StartsEmpty(s, size, a)
    ensures RoundEnding(s, size, n, b) !in {Some(Finished), Some(NoSegment)}
    ensures var ended := RoundEnding(s, size, n, b);
            ended.Some? && (ended.value == Halted || Opened(s, size, a, b + 1)) ==> ended.value == EndingOf(s, size, a, b)
    ensures RoundEnding(s, size, n, b) == None && SegmentBase(b, size) == SegmentBase(n, size) && Opened(s, size, a, b + 1) ==>
              EndingOf(s, size, a, b) == Finished
  {
    hide Opened;
    EmptyFromStart(s, size, a, n);
    EmptyFromStart(s, size, a, b);
    BaseGrows(n, b, size);
    SameSegment(n, b, size);
  }

  /** All segments of [a, b) have files. */
  ghost predicate Opened(s: Segments, size: nat, a: nat, b: nat)
    requires size > 0
  {
    forall n: nat :: a <= n < b ==> SegmentBase(n, size) in s
  }

  /** Past the last written block of a segment there is nothing up to its end. */
  lemma {:induction false} RestUnwritten(s: Segments, size: nat, first: nat, mid: nat, a: nat, stop: nat)
    requires size > 0 && a <= first <= mid <= stop <= SegmentBase(first, size) + size
    requires SegmentBase(first, size) in s && Opened(s, size, a, first)
    requires mid < stop ==> SegmentBase(first, size) + |s[SegmentBase(first, size)]| <= mid
    ensures Visits(s, size, a, stop) == Visits(s, size, a, mid) && Opened(s, size, a, stop)
  {
    forall n: nat | first <= n < stop ensures SegmentBase(n, size) == SegmentBase(first, size) {
      SameSegment(first, n, size);
    }
    NothingVisited(s, size, a, mid, stop);
  }
}
