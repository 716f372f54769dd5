/** The segmented dataset format: blocks of modified balances as bytes (dataset/writer.go, reader.go). */
module DatasetFormat {
  import opened Primitives
  import opened Encodings

  type Address = a: seq<Byte> | |a| == 20 witness seq(20, _ => 0)

  datatype Entry = Entry(address: Address, balance: seq<Byte>)

  type Block = seq<Entry>

  /** Fewer than 2^32 entries, with balances of a length that fits 64 bits. */
  predicate Encodable(b: Block) {
    |b| < Bound(4) && forall i :: 0 <= i < |b| ==> |b[i].balance| < Left(0)
  }

  // ----- encoding a block

  function EncodeEntry(e: Entry): seq<Byte> {
    e.address + Uvarint(|e.balance|) + e.balance
  }

  function EncodeEntries(es: seq<Entry>): seq<Byte> {
    if es == [] then [] else EncodeEntry(es[0]) + EncodeEntries(es[1..])
  }

  function EncodeBlock(b: Block): (s: seq<Byte>)
    ensures |s| >= 4
  {
    LittleEndian(|b|, 4) + EncodeEntries(b)
  }

  // ----- decoding

  /** One entry from the front, with the number of bytes read. */
  function DecodeEntry(s: seq<Byte>): (r: Option<(Entry, nat)>)
    ensures r.Some? ==> r.value.1 <= |s|
  {
    if |s| < 20 then None
    else
      match ReadUvarint(s[20..], 0)
      case None => None
      case Some((len, n)) =>
        if 20 + n + len > |s| then None else Some((Entry(s[..20], s[20 + n..20 + n + len]), 20 + n + len))
  }

  function DecodeEntries(s: seq<Byte>, count: nat): Option<seq<Entry>> {
    if count == 0 then Some([])
    else
      match DecodeEntry(s)
      case None => None
      case Some((e, n)) =>
        match DecodeEntries(s[n..], count - 1)
        case None => None
        case Some(rest) => Some([e] + rest)
  }

  function DecodeBlock(s: seq<Byte>): Option<Block> {
    if |s| < 4 then None else DecodeEntries(s[4..], FromLittleEndian(s[..4]))
  }

  lemma {:induction false} EntryRoundTrip(e: Entry, rest: seq<Byte>)
    requires |e.balance| < Left(0)
    ensures DecodeEntry(EncodeEntry(e) + rest) == Some((e, |EncodeEntry(e)|))
  {
    var s, v := EncodeEntry(e) + rest, Uvarint(|e.balance|);
    UvarintRoundTrip(|e.balance|, e.balance + rest, 0);
    assert s[20..] == v + (e.balance + rest);
    assert s[..20] == e.address;
    assert s[20 + |v|..20 + |v| + |e.balance|] == e.balance;
  }

  lemma {:induction false} DropFirst(a: seq<Byte>, b: seq<Byte>, c: seq<Byte>)
    ensures (a + b) + c == a + (b + c) && ((a + b) + c)[|a|..] == b + c
  {
  }

  lemma {:induction false} DecodeOneMore(s: seq<Byte>, e: Entry, n: nat, tail: seq<Byte>, es: seq<Entry>)
    requires DecodeEntry(s) == Some((e, n)) && s[n..] == tail && DecodeEntries(tail, |es|) == Some(es)
    ensures DecodeEntries(s, |es| + 1) == Some([e] + es)
  {
  }

  lemma {:induction false} EntriesRoundTrip(es: seq<Entry>, rest: seq<Byte>)
    requires forall i :: 0 <= i < |es| ==> |es[i].balance| < Left(0)
    ensures DecodeEntries(EncodeEntries(es) + rest, |es|) == Some(es)
  {
    if es != [] {
      var first, tail := EncodeEntry(es[0]), EncodeEntries(es[1..]);
      DropFirst(first, tail, rest);
      EntryRoundTrip(es[0], tail + rest);
      EntriesRoundTrip(es[1..], rest);
      DecodeOneMore((first + tail) + rest, es[0], |first|, tail + rest, es[1..]);
      assert es == [es[0]] + es[1..];
    }
  }

  /** Decoding an encoded block gives it back. */
  lemma {:induction false} BlockRoundTrip(b: Block)
    requires Encodable(b)
    ensures DecodeBlock(EncodeBlock(b)) == Some(b)
  {
    var s := EncodeBlock(b);
    LittleEndianRoundTrip(|b|, 4);
    assert s[..4] == LittleEndian(|b|, 4) && s[4..] == EncodeEntries(b) + [];
    EntriesRoundTrip(b, []);
  }

  // ----- the bytes of a block, by position

  /** Where entry i begins: the entries take 20 bytes for the address, the length of the balance and the balance. */
  function EntryStart(b: Block, i: nat): nat
    requires i <= |b|
  {
    if i == 0 then 4 else EntryStart(b, i - 1) + 20 + |Uvarint(|b[i - 1].balance|)| + |b[i - 1].balance|
  }

  lemma {:induction false} EntriesUpTo(b: Block, i: nat)
    requires i <= |b|
    ensures |EncodeEntries(b)| >= EntryStart(b, i) - 4
    ensures EncodeEntries(b)[EntryStart(b, i) - 4..] == EncodeEntries(b[i..])
    ensures EntryStart(b, i) >= 4
  {
    if i == 0 {
      assert b[0..] == b;
    } else {
      EntriesUpTo(b, i - 1);
      assert b[i - 1..][0] == b[i - 1] && b[i - 1..][1..] == b[i..];
      var s, k, first := EncodeEntries(b), EntryStart(b, i - 1) - 4, EncodeEntry(b[i - 1]);
      assert s[k..] == first + EncodeEntries(b[i..]);
      assert s[k..][|first|..] == s[k + |first|..];
    }
  }

  /** The number of entries in four bytes, the least significant one first. */
  lemma {:induction false} BlockHeader(b: Block, i: nat)
    requires i < 4
    ensures EncodeBlock(b)[i] == |b| / Bound(i) % 256
  {
    LittleEndianAt(|b|, 4, i);
  }

  /** Entry i: address, length and balance, from where it begins. */
  lemma {:induction false} BlockEntry(b: Block, i: nat)
    requires i < |b|
    ensures var start, len := EntryStart(b, i), |Uvarint(|b[i].balance|)|;
            && 4 <= start && start + 20 + len + |b[i].balance| <= |EncodeBlock(b)|
            && EncodeBlock(b)[start..start + 20] == b[i].address
            && EncodeBlock(b)[start + 20..start + 20 + len] == Uvarint(|b[i].balance|)
            && EncodeBlock(b)[start + 20 + len..start + 20 + len + |b[i].balance|] == b[i].balance
  {
    EntriesUpTo(b, i);
    assert b[i..][0] == b[i];
    Parts(EncodeBlock(b), EntryStart(b, i), b[i].address, Uvarint(|b[i].balance|), b[i].balance, EncodeEntries(b[i..][1..]));
  }

  lemma {:induction false} Parts(s: seq<Byte>, start: nat, x: seq<Byte>, y: seq<Byte>, z: seq<Byte>, rest: seq<Byte>)
    requires start <= |s| && s[start..] == x + y + z + rest
    ensures start + |x| + |y| + |z| <= |s|
    ensures s[start..start + |x|] == x && s[start + |x|..start + |x| + |y|] == y
    ensures s[start + |x| + |y|..start + |x| + |y| + |z|] == z
  {
    assert s[start..][..|x|] == x && s[start..][|x|..|x| + |y|] == y && s[start..][|x| + |y|..|x| + |y| + |z|] == z;
  }

  /** Nothing follows the entries. */
  lemma {:induction false} BlockLength(b: Block)
    ensures |EncodeBlock(b)| == EntryStart(b, |b|)
  {
    EntriesUpTo(b, |b|);
    assert b[|b|..] == [];
  }

  // ----- segments

  /** The data file of a segment. */
  function Data(blocks: seq<Block>): seq<Byte> {
    if blocks == [] then []
    else Data(blocks[..|blocks| - 1]) + EncodeBlock(blocks[|blocks| - 1])
  }

  /** The index file: the end offset of every block, after a leading zero. */
  function Index(blocks: seq<Block>): (s: seq<Byte>)
    ensures |s| == 8 * (|blocks| + 1)
  {
    if blocks == [] then LittleEndian(0, 8)
    else Index(blocks[..|blocks| - 1]) + LittleEndian(|Data(blocks)|, 8)
  }

  datatype SegmentFile = SegmentFile(dat: seq<Byte>, idx: seq<Byte>)

  function FileOf(blocks: seq<Block>): SegmentFile {
    SegmentFile(Data(blocks), Index(blocks))
  }

  /** The offset stored at position i of the index. */
  function OffsetAt(idx: seq<Byte>, i: nat): nat
    requires 8 * i + 8 <= |idx|
  {
    FromLittleEndian(idx[8 * i..8 * i + 8])
  }

  lemma {:induction false} SliceFirst(a: seq<Byte>, b: seq<Byte>, lo: nat, hi: nat)
    requires lo <= hi <= |a|
    ensures (a + b)[lo..hi] == a[lo..hi]
  {
  }

  lemma {:induction false} SliceSecond(a: seq<Byte>, b: seq<Byte>)
    ensures (a + b)[|a|..|a| + |b|] == b
  {
  }

  lemma {:induction false} StoredOffset(blocks: seq<Block>, i: nat)
    requires i <= |blocks| && |Data(blocks)| < Bound(8)
    ensures OffsetAt(Index(blocks), i) == |Data(blocks[..i])|
  {
    if i == |blocks| {
      assert blocks[..i] == blocks;
      LastOffset(blocks);
    } else {
      var before := blocks[..|blocks| - 1];
      StoredOffset(before, i);
      assert before[..i] == blocks[..i];
      SliceFirst(Index(before), LittleEndian(|Data(blocks)|, 8), 8 * i, 8 * i + 8);
    }
  }

  lemma {:induction false} LastOffset(blocks: seq<Block>)
    requires |Data(blocks)| < Bound(8)
    ensures OffsetAt(Index(blocks), |blocks|) == |Data(blocks)|
  {
    var last := LittleEndian(|Data(blocks)|, 8);
    LittleEndianRoundTrip(|Data(blocks)|, 8);
    if blocks == [] {
      assert Index(blocks) == last && last[0..8] == last;
    } else {
      SliceSecond(Index(blocks[..|blocks| - 1]), last);
    }
  }

  /** Byte j of the index entry i is digit j of the number of bytes before block i. */
  lemma {:induction false} IndexByte(blocks: seq<Block>, i: nat, j: nat)
    requires i <= |blocks| && j < 8
    ensures Index(blocks)[8 * i + j] == |Data(blocks[..i])| / Bound(j) % 256
  {
    if i == |blocks| {
      assert blocks[..i] == blocks;
      LittleEndianAt(|Data(blocks)|, 8, j);
    } else {
      var before := blocks[..|blocks| - 1];
      IndexByte(before, i, j);
      assert before[..i] == blocks[..i];
    }
  }

  /** The bytes between two consecutive offsets are those of the block. */
  lemma {:induction false} StoredBlock(blocks: seq<Block>, i: nat)
    requires i < |blocks|
    ensures |Data(blocks[..i])| <= |Data(blocks[..i + 1])| <= |Data(blocks)|
    ensures Data(blocks)[|Data(blocks[..i])|..|Data(blocks[..i + 1])|] == EncodeBlock(blocks[i])
  {
    var k := |blocks| - 1;
    var before := blocks[..k];
    if i == k {
      assert blocks[..i + 1] == blocks;
      SliceSecond(Data(before), EncodeBlock(blocks[k]));
    } else {
      StoredBlock(before, i);
      assert before[..i] == blocks[..i] && before[..i + 1] == blocks[..i + 1];
      SliceFirst(Data(before), EncodeBlock(blocks[k]), |Data(blocks[..i])|, |Data(blocks[..i + 1])|);
    }
  }

  lemma {:induction false} AppendedFile(blocks: seq<Block>, b: Block)
    ensures Data(blocks + [b]) == Data(blocks) + EncodeBlock(b)
    ensures Index(blocks + [b]) == Index(blocks) + LittleEndian(|Data(blocks + [b])|, 8)
  {
    assert (blocks + [b])[..|blocks|] == blocks;
  }
}
