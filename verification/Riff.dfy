/**
 RIFF chunks and lists, and the AVI file that examples/popular-apps/build-y4m-fixture.py muxes from raw
 video and audio: chapter 2, "Resource Interchange File Format", of Multimedia Programming Interface and
 Data Specifications 1.0. The partner is a reader that demuxes through the idx1 index.
 */
module Riff {
  import opened Octets

  const TAG_RIFF: Bytes := [0x52, 0x49, 0x46, 0x46]
  const TAG_AVI: Bytes := [0x41, 0x56, 0x49, 0x20]
  const TAG_LIST: Bytes := [0x4C, 0x49, 0x53, 0x54]
  const TAG_hdrl: Bytes := [0x68, 0x64, 0x72, 0x6C]
  const TAG_strl: Bytes := [0x73, 0x74, 0x72, 0x6C]
  const TAG_avih: Bytes := [0x61, 0x76, 0x69, 0x68]
  const TAG_strh: Bytes := [0x73, 0x74, 0x72, 0x68]
  const TAG_strf: Bytes := [0x73, 0x74, 0x72, 0x66]
  const TAG_movi: Bytes := [0x6D, 0x6F, 0x76, 0x69]
  const TAG_idx1: Bytes := [0x69, 0x64, 0x78, 0x31]
  const TAG_video: Bytes := [0x30, 0x30, 0x64, 0x62]   // "00db"
  const TAG_audio: Bytes := [0x30, 0x31, 0x77, 0x62]   // "01wb"

  const KEYFRAME := 0x10

  datatype Item = Item(tag: Bytes, payload: Bytes) {
    ghost predicate Valid() {
      |tag| == 4 && |payload| < WORD
    }
  }

  function Pad(n: nat): Bytes {
    if n % 2 == 1 then [0] else []
  }

  function RiffChunk(i: Item): (b: Bytes)
    ensures |i.tag| == 4 ==> |b| == 8 + |i.payload| + |i.payload| % 2
  {
    i.tag + Le32(|i.payload|) + i.payload + Pad(|i.payload|)
  }

  function ListItem(kind: Bytes, payload: Bytes): Item {
    Item(TAG_LIST, kind + payload)
  }

  function RiffList(kind: Bytes, payload: Bytes): Bytes {
    RiffChunk(ListItem(kind, payload))
  }

  function RiffChunks(items: seq<Item>): Bytes {
    if items == [] then [] else RiffChunk(items[0]) + RiffChunks(items[1..])
  }

  lemma {:induction false} ChunksConcat(a: seq<Item>, b: seq<Item>)
    ensures RiffChunks(a + b) == RiffChunks(a) + RiffChunks(b)
  {
    if a == [] {
      assert a + b == b;
    } else {
      hide RiffChunk;
      calc {
        RiffChunks(a + b);
        { assert (a + b)[0] == a[0] && (a + b)[1..] == a[1..] + b; }
        RiffChunk(a[0]) + RiffChunks(a[1..] + b);
        { ChunksConcat(a[1..], b); }
        RiffChunk(a[0]) + (RiffChunks(a[1..]) + RiffChunks(b));
        RiffChunks(a) + RiffChunks(b);
      }
    }
  }

  // The reader.

  /** The chunks that b consists of. An odd payload must be followed by a pad byte. */
  function ParseChunks(b: Bytes): Option<seq<Item>> {
    if b == [] then Some([])
    else if |b| < 8 then None
    else
      var n := U32At(b, 4);
      if |b| < 8 + n + n % 2 then None else
      match ParseChunks(b[8 + n + n % 2..])
      case None => None
      case Some(items) => Some([Item(b[..4], b[8..8 + n])] + items)
  }

  /** A chunk header and payload sit where an offset points. */
  predicate ChunkAt(b: Bytes, at: nat, i: Item) {
    && at + 8 + |i.payload| <= |b|
    && b[at..at + 4] == i.tag
    && U32At(b, at + 4) == |i.payload|
    && b[at + 8..at + 8 + |i.payload|] == i.payload
  }

  lemma ChunkIsThere(before: Bytes, i: Item, after: Bytes)
    requires i.Valid()
    ensures ChunkAt(before + RiffChunk(i) + after, |before|, i)
  {
    hide Le32;
    hide U32At;
    hide Pad;
    var b, at, n := before + RiffChunk(i) + after, |before|, |i.payload|;
    CutChunk(before, i.tag, Le32(n), i.payload, Pad(n), after);
    Le32Reads(n, b, at + 4);
  }

  lemma CutChunk(before: Bytes, tag: Bytes, size: Bytes, payload: Bytes, pad: Bytes, after: Bytes)
    requires |tag| == |size| == 4
    ensures var b, at, n := before + (tag + size + payload + pad) + after, |before|, |payload|;
            && b[at..at + 4] == tag && b[at + 4..at + 8] == size && b[at + 8..at + 8 + n] == payload
            && b[at + 8 + n + |pad|..] == after
  {
  }

  lemma {:induction false} ParseInverts(items: seq<Item>)
    requires forall k :: 0 <= k < |items| ==> items[k].Valid()
    ensures ParseChunks(RiffChunks(items)) == Some(items)
  {
    if items != [] {
      hide RiffChunk;
      hide ParseChunks;
      ParseInverts(items[1..]);
      FirstChunkParses(items[0], RiffChunks(items[1..]), items[1..]);
      assert items == [items[0]] + items[1..];
    }
  }

  lemma FirstChunkParses(i: Item, rest: Bytes, items: seq<Item>)
    requires i.Valid() && ParseChunks(rest) == Some(items)
    ensures ParseChunks(RiffChunk(i) + rest) == Some([i] + items)
  {
    hide ParseChunks;
    FrontChunk(i, rest);
    ParseUnfolds(RiffChunk(i) + rest, i, items);
  }

  lemma FrontChunk(i: Item, rest: Bytes)
    requires i.Valid()
    ensures var b, n := RiffChunk(i) + rest, |i.payload|;
            && ChunkAt(b, 0, i) && |b| == 8 + n + n % 2 + |rest| && b[8 + n + n % 2..] == rest
  {
    var n := |i.payload|;
    ChunkIsThere([], i, rest);
    assert [] + RiffChunk(i) + rest == RiffChunk(i) + rest;
    CutChunk([], i.tag, Le32(n), i.payload, Pad(n), rest);
    hide ChunkAt;
    hide Le32;
  }

  lemma ParseUnfolds(b: Bytes, i: Item, items: seq<Item>)
    requires ChunkAt(b, 0, i) && 8 + |i.payload| + |i.payload| % 2 <= |b|
    requires ParseChunks(b[8 + |i.payload| + |i.payload| % 2..]) == Some(items)
    ensures ParseChunks(b) == Some([i] + items)
  {
    hide U32At;
    assert b[..4] == b[0..4];
  }

  // The movie and its index. Offsets count from the 'movi' tag.

  function IndexEntry(i: Item, offset: nat): (e: Bytes)
    ensures |i.tag| == 4 ==> |e| == 16
  {
    i.tag + Le32(KEYFRAME) + Le32(offset) + Le32(|i.payload|)
  }

  function Index(packets: seq<Item>, offset: nat): Bytes {
    if packets == [] then []
    else IndexEntry(packets[0], offset) + Index(packets[1..], offset + |RiffChunk(packets[0])|)
  }

  lemma {:induction false} IndexSnoc(packets: seq<Item>, last: Item, offset: nat)
    ensures Index(packets + [last], offset) == Index(packets, offset) + IndexEntry(last, offset + |RiffChunks(packets)|)
  {
    hide RiffChunk;
    hide IndexEntry;
    if packets == [] {
      assert packets + [last] == [last] && [last][1..] == [];
      assert Index([last], offset) == IndexEntry(last, offset) + [];
    } else {
      var next := offset + |RiffChunk(packets[0])|;
      var entry := IndexEntry(last, offset + |RiffChunks(packets)|);
      assert offset + |RiffChunks(packets)| == next + |RiffChunks(packets[1..])|;
      hide RiffChunks;
      calc {
        Index(packets + [last], offset);
        { assert (packets + [last])[0] == packets[0] && (packets + [last])[1..] == packets[1..] + [last]; }
        IndexEntry(packets[0], offset) + Index(packets[1..] + [last], next);
        { IndexSnoc(packets[1..], last, next); }
        IndexEntry(packets[0], offset) + (Index(packets[1..], next) + entry);
        { Assoc(IndexEntry(packets[0], offset), Index(packets[1..], next), entry); }
        Index(packets, offset) + entry;
      }
    }
  }

  /** The payloads of one stream, found through the index. Every entry must match the chunk it points to. */
  function ReadStream(index: Bytes, movi: Bytes, tag: Bytes): Option<Bytes> {
    if index == [] then Some([])
    else if |index| < 16 then None
    else
      var at, n := U32At(index, 8), U32At(index, 12);
      if |movi| < at + 8 + n || movi[at..at + 4] != index[0..4] || U32At(movi, at + 4) != n then None else
      match ReadStream(index[16..], movi, tag)
      case None => None
      case Some(rest) => Some((if index[0..4] == tag then movi[at + 8..at + 8 + n] else []) + rest)
  }

  function StreamOf(packets: seq<Item>, tag: Bytes): Bytes {
    if packets == [] then []
    else (if packets[0].tag == tag then packets[0].payload else []) + StreamOf(packets[1..], tag)
  }

  lemma CutEntry(tag: Bytes, flags: Bytes, offset: Bytes, size: Bytes, rest: Bytes)
    requires |tag| == |flags| == |offset| == |size| == 4
    ensures var e := tag + flags + offset + size + rest;
            && e[0..4] == tag && e[4..8] == flags && e[8..12] == offset && e[12..16] == size && e[16..] == rest && |e| == 16 + |rest|
  {
  }

  lemma EntryReads(i: Item, offset: nat, rest: Bytes)
    requires i.Valid() && offset < WORD
    ensures var e := IndexEntry(i, offset) + rest;
            && 16 <= |e| && e[0..4] == i.tag && U32At(e, 4) == 16 && U32At(e, 8) == offset && U32At(e, 12) == |i.payload| && e[16..] == rest
  {
    hide Le32;
    hide U32At;
    var e := IndexEntry(i, offset) + rest;
    CutEntry(i.tag, Le32(KEYFRAME), Le32(offset), Le32(|i.payload|), rest);
    Le32Reads(KEYFRAME, e, 4);
    Le32Reads(offset, e, 8);
    Le32Reads(|i.payload|, e, 12);
  }

  /** Each index entry lands on its chunk, and the payloads of a stream come back in order. */
  lemma {:induction false} IndexInverts(before: Bytes, packets: seq<Item>, tag: Bytes)
    requires forall k :: 0 <= k < |packets| ==> packets[k].Valid()
    requires |before| + |RiffChunks(packets)| < WORD
    ensures ReadStream(Index(packets, |before|), before + RiffChunks(packets), tag) == Some(StreamOf(packets, tag))
    decreases packets
  {
    hide RiffChunk;
    hide IndexEntry;
    hide ReadStream;
    if packets == [] {
      NoEntries(before + RiffChunks(packets), tag);
    } else {
      var i, after := packets[0], RiffChunks(packets[1..]);
      var rest := Index(packets[1..], |before| + |RiffChunk(i)|);
      Assoc(before, RiffChunk(i), after);
      IndexInverts(before + RiffChunk(i), packets[1..], tag);
      FirstEntryReads(before, i, after, rest, tag);
    }
  }

  lemma NoEntries(movi: Bytes, tag: Bytes)
    ensures ReadStream([], movi, tag) == Some([])
  {
  }

  lemma FirstEntryReads(before: Bytes, i: Item, after: Bytes, rest: Bytes, tag: Bytes)
    requires i.Valid() && |before| < WORD && ReadStream(rest, before + RiffChunk(i) + after, tag).Some?
    ensures var movi := before + RiffChunk(i) + after;
            ReadStream(IndexEntry(i, |before|) + rest, movi, tag)
            == Some((if i.tag == tag then i.payload else []) + ReadStream(rest, movi, tag).value)
  {
    hide RiffChunk;
    hide IndexEntry;
    hide U32At;
    ChunkIsThere(before, i, after);
    EntryReads(i, |before|, rest);
  }

  /**
   The k-th entry of the index, in its own place, points at the k-th chunk of the movie. The offset that is read
   back from the entry is that place while the movie fits in a word.
   */
  lemma EntryPointsAtChunk(before: Bytes, packets: seq<Item>, k: nat) returns (offset: nat)
    requires k < |packets| && forall j :: 0 <= j < |packets| ==> packets[j].Valid()
    ensures var index, movi := Index(packets, |before|), before + RiffChunks(packets);
            && 16 * (k + 1) <= |index|
            && index[16 * k..16 * (k + 1)] == IndexEntry(packets[k], offset)
            && ChunkAt(movi, offset, packets[k])
            && U32At(index, 16 * k + 4) == 16
            && U32At(index, 16 * k + 8) == offset % WORD
            && U32At(index, 16 * k + 12) == |packets[k].payload|
            && (|movi| <= WORD ==> U32At(index, 16 * k + 8) == offset)
  {
    hide Index;
    hide RiffChunks;
    hide U32At;
    var index := Index(packets, |before|);
    offset := EntryIsThere(before, packets, k);
    OffsetReads(packets[k], offset, index, 16 * k);
  }

  lemma SliceOfSlice(b: Bytes, lo: nat, hi: nat, from: nat, to: nat)
    requires lo + to <= hi <= |b| && from <= to
    ensures b[lo..hi][from..to] == b[lo + from..lo + to]
  {
    var c, d := b[lo..hi][from..to], b[lo + from..lo + to];
    forall k | 0 <= k < to - from ensures c[k] == d[k] {
      assert c[k] == b[lo..hi][from + k];
    }
  }

  lemma OffsetReads(i: Item, offset: nat, index: Bytes, at: nat)
    requires |i.tag| == 4 && at + 16 <= |index| && index[at..at + 16] == IndexEntry(i, offset)
    ensures U32At(index, at + 4) == 16 && U32At(index, at + 8) == offset % WORD
    ensures U32At(index, at + 12) == |i.payload| % WORD
  {
    hide U32At;
    hide Le32;
    var e := index[at..at + 16];
    CutEntry(i.tag, Le32(KEYFRAME), Le32(offset), Le32(|i.payload|), []);
    assert IndexEntry(i, offset) + [] == e;
    SliceOfSlice(index, at, at + 16, 4, 8);
    SliceOfSlice(index, at, at + 16, 8, 12);
    SliceOfSlice(index, at, at + 16, 12, 16);
    Le32Reads(KEYFRAME, index, at + 4);
    Le32Reads(offset, index, at + 8);
    Le32Reads(|i.payload|, index, at + 12);
  }

  lemma {:induction false} EntryIsThere(before: Bytes, packets: seq<Item>, k: nat) returns (offset: nat)
    requires k < |packets| && forall j :: 0 <= j < |packets| ==> packets[j].Valid()
    ensures 16 * (k + 1) <= |Index(packets, |before|)|
    ensures Index(packets, |before|)[16 * k..16 * (k + 1)] == IndexEntry(packets[k], offset)
    ensures ChunkAt(before + RiffChunks(packets), offset, packets[k])
    decreases packets
  {
    var i, after := packets[0], RiffChunks(packets[1..]);
    var rest := Index(packets[1..], |before| + |RiffChunk(i)|);
    assert |IndexEntry(i, |before|)| == 16;
    hide RiffChunk;
    hide IndexEntry;
    hide ChunkAt;
    Assoc(before, RiffChunk(i), after);
    if k == 0 {
      offset := |before|;
      ChunkIsThere(before, i, after);
      EntrySlice(IndexEntry(i, |before|), rest, 0);
    } else {
      offset := EntryIsThere(before + RiffChunk(i), packets[1..], k - 1);
      EntrySlice(IndexEntry(i, |before|), rest, k);
    }
  }

  lemma EntrySlice(first: Bytes, rest: Bytes, k: nat)
    requires |first| == 16 && 16 * k <= |rest|
    ensures (first + rest)[0..16] == first
    ensures 0 < k ==> (first + rest)[16 * k..16 * (k + 1)] == rest[16 * (k - 1)..16 * k]
  {
  }

  // The bytes, spelled out.

  lemma Tags()
    ensures TAG_RIFF == Ascii("RIFF") && TAG_AVI == Ascii("AVI ") && TAG_LIST == Ascii("LIST")
    ensures TAG_hdrl == Ascii("hdrl") && TAG_strl == Ascii("strl") && TAG_avih == Ascii("avih")
    ensures TAG_strh == Ascii("strh") && TAG_strf == Ascii("strf") && TAG_movi == Ascii("movi")
    ensures TAG_idx1 == Ascii("idx1") && TAG_video == Ascii("00db") && TAG_audio == Ascii("01wb")
  {
  }

  /** A chunk with an odd payload, and its index entry: key frame flag, offset and length. */
  lemma ChunkBytes()
    ensures RiffChunk(Item(Ascii("00db"), [7, 8, 9])) == [48, 48, 100, 98, 3, 0, 0, 0, 7, 8, 9, 0]
    ensures IndexEntry(Item(Ascii("00db"), [7, 8, 9]), 4) == [48, 48, 100, 98, 16, 0, 0, 0, 4, 0, 0, 0, 3, 0, 0, 0]
  {
  }
}
