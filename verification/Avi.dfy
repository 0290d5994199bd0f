/** build_avi of examples/popular-apps/build-y4m-fixture.py: the muxing loop, and demuxing its file. */
module Avi {
  import opened Octets
  import opened Riff

  // The packed header structures. Nothing below depends on their contents.
  datatype Headers = Headers(avih: Bytes, videoStrh: Bytes, videoStrf: Bytes, audioStrh: Bytes, audioStrf: Bytes)

  function StreamItems(strh: Bytes, strf: Bytes): seq<Item> {
    [Item(TAG_strh, strh), Item(TAG_strf, strf)]
  }

  function HeaderItems(h: Headers): seq<Item> {
    [Item(TAG_avih, h.avih),
     ListItem(TAG_strl, RiffChunks(StreamItems(h.videoStrh, h.videoStrf))),
     ListItem(TAG_strl, RiffChunks(StreamItems(h.audioStrh, h.audioStrf)))]
  }

  /** The two packets of one frame. */
  function FramePackets(video: Bytes, audio: Bytes, frameSize: nat, audioSize: nat, frame: nat): (p: seq<Item>)
    ensures |p| == 2 && p[0].tag == TAG_video && p[1].tag == TAG_audio
  {
    [Item(TAG_video, Slice(video, frame * frameSize, (frame + 1) * frameSize)),
     Item(TAG_audio, Slice(audio, frame * audioSize, (frame + 1) * audioSize))]
  }

  function Packets(video: Bytes, audio: Bytes, frameSize: nat, audioSize: nat, frames: nat): (p: seq<Item>)
    ensures |p| == 2 * frames && forall k :: 0 <= k < |p| ==> |p[k].tag| == 4
  {
    if frames == 0 then []
    else Packets(video, audio, frameSize, audioSize, frames - 1)
         + FramePackets(video, audio, frameSize, audioSize, frames - 1)
  }

  /** The chunks behind the form type. */
  function BodyItems(h: Headers, packets: seq<Item>): seq<Item> {
    [ListItem(TAG_hdrl, RiffChunks(HeaderItems(h))),
     ListItem(TAG_movi, RiffChunks(packets)),
     Item(TAG_idx1, Index(packets, 4))]
  }

  function Body(h: Headers, packets: seq<Item>): Bytes {
    TAG_AVI + RiffChunks(BodyItems(h, packets))
  }

  function File(h: Headers, packets: seq<Item>): Bytes {
    RiffChunkHead(|Body(h, packets)|) + Body(h, packets)
  }

  function RiffChunkHead(n: nat): (b: Bytes)
    ensures |b| == 8
  {
    TAG_RIFF + Le32(n)
  }

  // struct.pack raises for a number that does not fit.
  datatype PackError = PackError

  lemma ThreeChunks(a: Item, b: Item, c: Item)
    ensures RiffChunks([a, b, c]) == RiffChunk(a) + RiffChunk(b) + RiffChunk(c)
    ensures RiffChunks([b, c]) == RiffChunk(b) + RiffChunk(c)
  {
    hide RiffChunk;
    assert [a, b, c][1..] == [b, c] && [b, c][1..] == [c] && [c][1..] == [];
    assert RiffChunks([c]) == RiffChunk(c) + [] == RiffChunk(c);
    assert RiffChunk(a) + (RiffChunk(b) + RiffChunk(c)) == RiffChunk(a) + RiffChunk(b) + RiffChunk(c);
  }

  /** Every part that is packed on the way is no longer than the body. */
  lemma PartsFit(h: Headers, packets: seq<Item>)
    ensures 4 + |RiffChunks(packets)| <= |Body(h, packets)|
    ensures |Index(packets, 4)| <= |Body(h, packets)|
    ensures |RiffChunks(HeaderItems(h))| + 4 <= |Body(h, packets)|
  {
    hide RiffChunks;
    hide Index;
    hide HeaderItems;
    var items := BodyItems(h, packets);
    ThreeChunks(items[0], items[1], items[2]);
  }

  lemma {:induction false} PrefixIsShorter(a: seq<Item>, b: seq<Item>)
    ensures |RiffChunks(a)| <= |RiffChunks(a + b)|
  {
    ChunksConcat(a, b);
  }

  lemma {:induction false} PacketsPrefix(video: Bytes, audio: Bytes, frameSize: nat, audioSize: nat, f: nat, frames: nat)
    requires f <= frames
    ensures Packets(video, audio, frameSize, audioSize, f) <= Packets(video, audio, frameSize, audioSize, frames)
    decreases frames
  {
    if f < frames {
      PacketsPrefix(video, audio, frameSize, audioSize, f, frames - 1);
    }
  }

  /** A number that does not fit while a packet is added means that the finished body does not fit. */
  lemma TooLong(h: Headers, packets: seq<Item>, before: seq<Item>, i: Item)
    requires before + [i] <= packets && |i.tag| == 4
    ensures 4 + |RiffChunks(before)| <= |Body(h, packets)| && |i.payload| <= |Body(h, packets)|
  {
    var rest := packets[|before| + 1..];
    assert packets == before + [i] + rest;
    PrefixIsShorter(before + [i], rest);
    ChunksConcat(before, [i]);
    assert RiffChunks([i]) == RiffChunk(i) + RiffChunks([]);
    PartsFit(h, packets);
  }

  /** riff_chunk */
  method PackChunk(i: Item) returns (r: Result<Bytes, PackError>)
    ensures r == if |i.payload| < WORD then Ok(RiffChunk(i)) else Err(PackError)
  {
    r := if |i.payload| < WORD then Ok(RiffChunk(i)) else Err(PackError);
  }

  /** One turn of the inner loop: encodes a packet, and indexes it under the current offset. */
  method AddPacket(i: Item, movi: Bytes, index: Bytes, offset: nat, ghost before: seq<Item>)
    returns (r: Result<(Bytes, Bytes, nat), PackError>)
    requires movi == RiffChunks(before) && index == Index(before, 4) && offset == 4 + |movi|
    ensures r == if |i.payload| < WORD && offset < WORD
                 then var movi' := RiffChunks(before + [i]);
                      Ok((movi', Index(before + [i], 4), 4 + |movi'|))
                 else Err(PackError)
  {
    hide RiffChunks;
    hide Index;
    hide IndexEntry;
    hide RiffChunk;
    var encoded := PackChunk(i);
    if encoded.Err? || WORD <= offset {
      return Err(PackError);
    }
    IndexSnoc(before, i, 4);
    ChunksSnoc(before, i);
    r := Ok((movi + encoded.value, index + IndexEntry(i, offset), offset + |encoded.value|));
  }

  lemma ChunksSnoc(before: seq<Item>, i: Item)
    ensures RiffChunks(before + [i]) == RiffChunks(before) + RiffChunk(i)
  {
    ChunksConcat(before, [i]);
    assert RiffChunks([i]) == RiffChunk(i) + [];
  }

  /** build_avi: it raises exactly when the body is too long for its size field. */
  method BuildAvi(video: Bytes, audio: Bytes, frameSize: nat, audioSize: nat, frames: nat, h: Headers)
    returns (r: Result<Bytes, PackError>)
    ensures var packets := Packets(video, audio, frameSize, audioSize, frames);
            r == if |Body(h, packets)| < WORD then Ok(File(h, packets)) else Err(PackError)
  {
    hide RiffChunks;
    hide Index;
    hide RiffChunk;
    hide Slice;
    hide HeaderItems;
    hide Body;
    ghost var packets := Packets(video, audio, frameSize, audioSize, frames);
    var movi: Bytes, index: Bytes, offset: nat := [], [], 4;
    NothingYet();
    for frame := 0 to frames
      invariant var before := Packets(video, audio, frameSize, audioSize, frame);
                movi == RiffChunks(before) && index == Index(before, 4) && offset == 4 + |movi|
    {
      ghost var before := Packets(video, audio, frameSize, audioSize, frame);
      var videoFrame := Item(TAG_video, Slice(video, frame * frameSize, (frame + 1) * frameSize));
      var audioFrame := Item(TAG_audio, Slice(audio, frame * audioSize, (frame + 1) * audioSize));
      PacketsPrefix(video, audio, frameSize, audioSize, frame + 1, frames);
      assert before + [videoFrame] + [audioFrame] == Packets(video, audio, frameSize, audioSize, frame + 1);
      TooLong(h, packets, before, videoFrame);
      TooLong(h, packets, before + [videoFrame], audioFrame);
      var added := AddPacket(videoFrame, movi, index, offset, before);
      if added.Err? {
        return Err(PackError);
      }
      added := AddPacket(audioFrame, added.value.0, added.value.1, added.value.2, before + [videoFrame]);
      if added.Err? {
        return Err(PackError);
      }
      movi, index, offset := added.value.0, added.value.1, added.value.2;
    }
    r := Assemble(h, packets, movi, index);
  }

  lemma NothingYet()
    ensures RiffChunks([]) == [] && Index([], 4) == []
  {
  }

  method Assemble(h: Headers, ghost packets: seq<Item>, movi: Bytes, index: Bytes) returns (r: Result<Bytes, PackError>)
    requires movi == RiffChunks(packets) && index == Index(packets, 4)
    ensures r == if |Body(h, packets)| < WORD then Ok(File(h, packets)) else Err(PackError)
  {
    hide RiffChunks;
    hide Index;
    hide HeaderItems;
    var hdrl, idx := RiffChunks(HeaderItems(h)), Item(TAG_idx1, index);
    var tag, riff := TAG_AVI, TAG_RIFF;
    ThreeChunks(ListItem(TAG_hdrl, hdrl), ListItem(TAG_movi, movi), idx);
    hide RiffChunk;
    var body := tag + (RiffList(TAG_hdrl, hdrl) + RiffList(TAG_movi, movi) + RiffChunk(idx));
    assert body == Body(h, packets);
    if WORD <= |body| {
      return Err(PackError);
    }
    r := Ok(riff + Le32(|body|) + body);
  }

  // Demuxing.

  function FindList(items: seq<Item>, kind: Bytes): Option<Bytes> {
    if items == [] then None
    else if items[0].tag == TAG_LIST && kind <= items[0].payload then Some(items[0].payload)
    else FindList(items[1..], kind)
  }

  function FindTag(items: seq<Item>, tag: Bytes): Option<Bytes> {
    if items == [] then None
    else if items[0].tag == tag then Some(items[0].payload)
    else FindTag(items[1..], tag)
  }

  /** The chunks of an AVI file. */
  function FileItems(data: Bytes): Option<seq<Item>> {
    if |data| < 12 || data[0..4] != TAG_RIFF || U32At(data, 4) != |data| - 8 || data[8..12] != TAG_AVI then None
    else ParseChunks(data[12..])
  }

  /** One stream of an AVI file, through its index. */
  function Demux(data: Bytes, tag: Bytes): Option<Bytes> {
    match FileItems(data)
    case None => None
    case Some(items) =>
      match (FindList(items, TAG_movi), FindTag(items, TAG_idx1))
      case (Some(movi), Some(index)) => ReadStream(index, movi, tag)
      case _ => None
  }

  /** The two header structures in a stream's list. */
  function ReadStreamHeaders(i: Item): Option<(Bytes, Bytes)> {
    if i.tag != TAG_LIST || !(TAG_strl <= i.payload) then None else
    match ParseChunks(i.payload[4..])
    case None => None
    case Some(items) =>
      if |items| == 2 && items[0].tag == TAG_strh && items[1].tag == TAG_strf
      then Some((items[0].payload, items[1].payload)) else None
  }

  /** The header structures of an AVI file, through its nested lists. */
  function ReadHeaders(data: Bytes): Option<Headers> {
    match FileItems(data)
    case None => None
    case Some(items) =>
      match FindList(items, TAG_hdrl)
      case None => None
      case Some(hdrl) => HeadersOf(hdrl)
  }

  function HeadersOf(hdrl: Bytes): Option<Headers> {
    if |hdrl| < 4 then None else
    match ParseChunks(hdrl[4..])
    case None => None
    case Some(items) =>
      if |items| != 3 || items[0].tag != TAG_avih then None else
      match (ReadStreamHeaders(items[1]), ReadStreamHeaders(items[2]))
      case (Some(video), Some(audio)) => Some(Headers(items[0].payload, video.0, video.1, audio.0, audio.1))
      case _ => None
  }

  lemma FileParts(h: Headers, packets: seq<Item>)
    requires |Body(h, packets)| < WORD
    ensures var data := File(h, packets);
            && 12 <= |data| && data[0..4] == TAG_RIFF && U32At(data, 4) == |data| - 8 && data[8..12] == TAG_AVI
            && data[12..] == RiffChunks(BodyItems(h, packets))
  {
    hide BodyItems;
    hide RiffChunks;
    hide Le32;
    hide U32At;
    var data, n := File(h, packets), |Body(h, packets)|;
    assert data[4..8] == Le32(n);
    Le32Reads(n, data, 4);
  }

  lemma BodyItemsValid(h: Headers, packets: seq<Item>)
    requires |Body(h, packets)| < WORD
    ensures |BodyItems(h, packets)| == 3 && forall k :: 0 <= k < 3 ==> BodyItems(h, packets)[k].Valid()
  {
    hide RiffChunks;
    hide Index;
    hide HeaderItems;
    PartsFit(h, packets);
  }

  lemma BodyItemsFound(h: Headers, packets: seq<Item>)
    ensures FindList(BodyItems(h, packets), TAG_movi) == Some(TAG_movi + RiffChunks(packets))
    ensures FindTag(BodyItems(h, packets), TAG_idx1) == Some(Index(packets, 4))
  {
    hide RiffChunks;
    hide Index;
    hide HeaderItems;
    var items := BodyItems(h, packets);
    var hdrl := items[0].payload;
    assert hdrl[0] == TAG_hdrl[0] && TAG_hdrl[0] != TAG_movi[0];
    assert TAG_LIST[0] != TAG_idx1[0];
    var last := items[1..][1..];
    assert items[1..][0] == items[1] && last[0] == items[2];
    assert FindTag(last, TAG_idx1) == Some(Index(packets, 4));
    assert FindTag(items[1..], TAG_idx1) == FindTag(last, TAG_idx1);
  }

  /** The file's chunks are the three that were written. */
  lemma FileItemsFound(h: Headers, packets: seq<Item>)
    requires |Body(h, packets)| < WORD
    ensures FileItems(File(h, packets)) == Some(BodyItems(h, packets))
  {
    hide BodyItems;
    hide RiffChunks;
    hide ParseChunks;
    hide File;
    hide Body;
    hide U32At;
    FileParts(h, packets);
    BodyItemsValid(h, packets);
    ParseInverts(BodyItems(h, packets));
  }

  /** Demuxing inverts muxing, for any packets and any headers. */
  lemma DemuxInverts(h: Headers, packets: seq<Item>, tag: Bytes)
    requires (forall k :: 0 <= k < |packets| ==> |packets[k].tag| == 4) && |Body(h, packets)| < WORD
    ensures Demux(File(h, packets), tag) == Some(StreamOf(packets, tag))
    ensures ParseChunks(RiffChunks(packets)) == Some(packets)
  {
    hide RiffChunks;
    hide Index;
    hide BodyItems;
    hide FindList;
    hide FindTag;
    hide FileItems;
    hide ReadStream;
    hide ParseChunks;
    hide File;
    hide Body;
    PacketsFit(h, packets);
    FileItemsFound(h, packets);
    BodyItemsFound(h, packets);
    PartsFit(h, packets);
    ParseInverts(packets);
    IndexInverts(TAG_movi, packets, tag);
  }

  lemma ListPayload(kind: Bytes, payload: Bytes)
    requires |kind| == 4
    ensures var i := ListItem(kind, payload);
            i.tag == TAG_LIST && kind <= i.payload && i.payload[4..] == payload && |i.payload| == 4 + |payload|
  {
  }

  lemma StreamHeadersRead(strh: Bytes, strf: Bytes)
    requires |RiffChunks(StreamItems(strh, strf))| < WORD
    ensures ReadStreamHeaders(ListItem(TAG_strl, RiffChunks(StreamItems(strh, strf)))) == Some((strh, strf))
  {
    hide RiffChunks;
    hide ParseChunks;
    hide ListItem;
    var items := StreamItems(strh, strf);
    ChunkLengths(items);
    ParseInverts(items);
    ListPayload(TAG_strl, RiffChunks(items));
  }

  /** A chunk is longer than its payload, and the whole longer than each chunk. */
  lemma {:induction false} ChunkLengths(items: seq<Item>)
    requires forall k :: 0 <= k < |items| ==> |items[k].tag| == 4
    ensures forall k :: 0 <= k < |items| ==> |items[k].payload| < |RiffChunks(items)|
  {
    hide RiffChunk;
    if items != [] {
      ChunkLengths(items[1..]);
      forall k | 0 <= k < |items| ensures |items[k].payload| < |RiffChunks(items)| {
        if k > 0 {
          assert items[k] == items[1..][k - 1];
        }
      }
    }
  }

  /** The nested header lists of the file parse back to the header structures. */
  lemma HeadersInvert(h: Headers, packets: seq<Item>)
    requires |Body(h, packets)| < WORD
    ensures ReadHeaders(File(h, packets)) == Some(h)
  {
    hide File;
    hide FileItems;
    hide RiffChunks;
    hide HeaderItems;
    hide HeadersOf;
    hide ListItem;
    hide Index;
    FileItemsFound(h, packets);
    PartsFit(h, packets);
    HeadersOfInvert(h);
    ListPayload(TAG_hdrl, RiffChunks(HeaderItems(h)));
  }

  lemma HeadersOfInvert(h: Headers)
    requires |RiffChunks(HeaderItems(h))| < WORD
    ensures HeadersOf(ListItem(TAG_hdrl, RiffChunks(HeaderItems(h))).payload) == Some(h)
  {
    hide RiffChunks;
    hide ParseChunks;
    hide ListItem;
    hide ReadStreamHeaders;
    var items := HeaderItems(h);
    ListPayload(TAG_strl, RiffChunks(StreamItems(h.videoStrh, h.videoStrf)));
    ListPayload(TAG_strl, RiffChunks(StreamItems(h.audioStrh, h.audioStrf)));
    ChunkLengths(items);
    ParseInverts(items);
    assert |items[1].payload| < WORD && |items[2].payload| < WORD;
    StreamHeadersRead(h.videoStrh, h.videoStrf);
    StreamHeadersRead(h.audioStrh, h.audioStrf);
    ListPayload(TAG_hdrl, RiffChunks(items));
  }

  lemma PacketsFit(h: Headers, packets: seq<Item>)
    requires (forall k :: 0 <= k < |packets| ==> |packets[k].tag| == 4) && |Body(h, packets)| < WORD
    ensures forall k :: 0 <= k < |packets| ==> packets[k].Valid()
  {
    hide Body;
    forall k | 0 <= k < |packets| ensures packets[k].Valid() {
      assert packets[..k] + [packets[k]] <= packets;
      TooLong(h, packets, packets[..k], packets[k]);
    }
  }

  // The two streams of the frame loop.

  lemma StreamCons(i: Item, rest: seq<Item>, tag: Bytes)
    ensures StreamOf([i] + rest, tag) == (if i.tag == tag then i.payload else []) + StreamOf(rest, tag)
  {
    assert ([i] + rest)[1..] == rest;
  }

  lemma {:induction false} StreamConcat(a: seq<Item>, b: seq<Item>, tag: Bytes)
    ensures StreamOf(a + b, tag) == StreamOf(a, tag) + StreamOf(b, tag)
  {
    hide StreamOf;
    if a == [] {
      NoStream(tag);
      assert a + b == b;
      assert [] + StreamOf(b, tag) == StreamOf(b, tag);
    } else {
      StreamConcat(a[1..], b, tag);
      StreamCons(a[0], a[1..], tag);
      StreamCons(a[0], a[1..] + b, tag);
      assert a == [a[0]] + a[1..] && a + b == [a[0]] + (a[1..] + b);
      Assoc(if a[0].tag == tag then a[0].payload else [], StreamOf(a[1..], tag), StreamOf(b, tag));
    }
  }

  lemma NoStream(tag: Bytes)
    ensures StreamOf([], tag) == []
  {
  }

  lemma SlicesJoin(s: Bytes, at: nat, n: nat)
    ensures Slice(s, 0, at) + Slice(s, at, at + n) == Slice(s, 0, at + n)
  {
  }

  /** The video and the audio of n frames are the first n frames' worth of the raw bytes. */
  lemma {:induction false} StreamsOfFrames(video: Bytes, audio: Bytes, frameSize: nat, audioSize: nat, n: nat)
    ensures var packets := Packets(video, audio, frameSize, audioSize, n);
            && StreamOf(packets, TAG_video) == Slice(video, 0, n * frameSize)
            && StreamOf(packets, TAG_audio) == Slice(audio, 0, n * audioSize)
  {
    hide Slice;
    hide StreamOf;
    if n == 0 {
      NoFrames(video, audio);
    } else {
      var before := Packets(video, audio, frameSize, audioSize, n - 1);
      var last := FramePackets(video, audio, frameSize, audioSize, n - 1);
      StreamsOfFrames(video, audio, frameSize, audioSize, n - 1);
      StreamConcat(before, last, TAG_video);
      StreamConcat(before, last, TAG_audio);
      TwoPackets(last[0], last[1]);
      assert last == [last[0], last[1]];
      OneMore(n, frameSize);
      OneMore(n, audioSize);
      SlicesJoin(video, (n - 1) * frameSize, frameSize);
      SlicesJoin(audio, (n - 1) * audioSize, audioSize);
    }
  }

  lemma OneMore(n: nat, k: nat)
    requires 0 < n
    ensures n * k == (n - 1) * k + k && (n - 1 + 1) * k == n * k
  {
  }

  lemma NoFrames(video: Bytes, audio: Bytes)
    ensures StreamOf([], TAG_video) == StreamOf([], TAG_audio) == [] == Slice(video, 0, 0) == Slice(audio, 0, 0)
  {
  }

  lemma WholeSlice(s: Bytes, n: nat)
    ensures Slice(s, 0, n) == s <==> |s| <= n
  {
  }

  lemma TwoPackets(v: Item, a: Item)
    requires v.tag == TAG_video && a.tag == TAG_audio
    ensures StreamOf([v, a], TAG_video) == v.payload && StreamOf([v, a], TAG_audio) == a.payload
  {
    assert TAG_video[1] != TAG_audio[1];
    assert [v, a][1..] == [a] && [a][1..] == [];
    assert StreamOf([a], TAG_video) == [] + [] && StreamOf([a], TAG_audio) == a.payload + [];
  }

  lemma StreamComesBack(h: Headers, packets: seq<Item>, tag: Bytes, raw: Bytes, n: nat)
    requires (forall k :: 0 <= k < |packets| ==> |packets[k].tag| == 4) && |Body(h, packets)| < WORD
    requires StreamOf(packets, tag) == Slice(raw, 0, n)
    ensures Demux(File(h, packets), tag) == Some(raw) <==> |raw| <= n
  {
    hide Body;
    hide File;
    hide Demux;
    hide Slice;
    DemuxInverts(h, packets, tag);
    WholeSlice(raw, n);
  }

  /** The file gives back the original video and audio exactly when the frames cover them. */
  lemma AviRoundTrip(video: Bytes, audio: Bytes, frameSize: nat, audioSize: nat, frames: nat, h: Headers)
    requires |Body(h, Packets(video, audio, frameSize, audioSize, frames))| < WORD
    ensures var data := File(h, Packets(video, audio, frameSize, audioSize, frames));
            && (Demux(data, TAG_video) == Some(video) <==> |video| <= frames * frameSize)
            && (Demux(data, TAG_audio) == Some(audio) <==> |audio| <= frames * audioSize)
  {
    hide Body;
    hide File;
    hide Demux;
    hide Slice;
    hide StreamOf;
    hide Packets;
    var packets := Packets(video, audio, frameSize, audioSize, frames);
    StreamsOfFrames(video, audio, frameSize, audioSize, frames);
    StreamComesBack(h, packets, TAG_video, video, frames * frameSize);
    StreamComesBack(h, packets, TAG_audio, audio, frames * audioSize);
  }

  // The order of the parts.

  /** In the file: first the headers, then the movie, then the index. */
  lemma FileLayout(h: Headers, packets: seq<Item>)
    requires (forall k :: 0 <= k < |packets| ==> |packets[k].tag| == 4) && |Body(h, packets)| < WORD
    ensures var items := FileItems(File(h, packets));
            && items.Some? && |items.value| == 3
            && items.value[0].tag == Ascii("LIST") && Ascii("hdrl") <= items.value[0].payload
            && items.value[1].tag == Ascii("LIST") && items.value[1].payload == Ascii("movi") + RiffChunks(packets)
            && items.value[2].tag == Ascii("idx1") && |items.value[2].payload| == 16 * |packets|
  {
    hide FileItems;
    hide File;
    hide Body;
    hide RiffChunks;
    hide BodyItems;
    hide Ascii;
    hide Index;
    Tags();
    FileItemsFound(h, packets);
    IndexLength(packets, 4);
    BodyLayout(h, packets);
  }

  lemma BodyLayout(h: Headers, packets: seq<Item>)
    ensures var items := BodyItems(h, packets);
            && |items| == 3
            && items[0].tag == TAG_LIST && TAG_hdrl <= items[0].payload
            && items[1].tag == TAG_LIST && items[1].payload == TAG_movi + RiffChunks(packets)
            && items[2].tag == TAG_idx1 && items[2].payload == Index(packets, 4)
  {
    hide RiffChunks;
    hide HeaderItems;
    hide Index;
  }

  lemma {:induction false} IndexLength(packets: seq<Item>, offset: nat)
    ensures (forall k :: 0 <= k < |packets| ==> |packets[k].tag| == 4) ==> |Index(packets, offset)| == 16 * |packets|
  {
    hide IndexEntry;
    if packets != [] {
      IndexLength(packets[1..], offset + |RiffChunk(packets[0])|);
    }
  }

  /** In the movie: for each frame first its slice of the video, from v on, then its slice of the audio, from a on. */
  lemma PacketAt(video: Bytes, audio: Bytes, frameSize: nat, audioSize: nat, frames: nat, f: nat, v: nat, a: nat)
    requires f < frames && v == f * frameSize && a == f * audioSize
    requires v + frameSize <= |video| && a + audioSize <= |audio|
    ensures var p := Packets(video, audio, frameSize, audioSize, frames);
            && p[2 * f] == Item(Ascii("00db"), video[v..v + frameSize])
            && p[2 * f + 1] == Item(Ascii("01wb"), audio[a..a + audioSize])
  {
    hide Ascii;
    hide Slice;
    hide Packets;
    Tags();
    assert (f + 1) * frameSize == v + frameSize && (f + 1) * audioSize == a + audioSize;
    FrameIsThere(video, audio, frameSize, audioSize, frames, f);
    WithinSlice(video, v, v + frameSize);
    WithinSlice(audio, a, a + audioSize);
  }

  lemma WithinSlice(s: Bytes, lo: nat, hi: nat)
    requires lo <= hi <= |s|
    ensures Slice(s, lo, hi) == s[lo..hi]
  {
  }

  lemma {:induction false} FrameIsThere(video: Bytes, audio: Bytes, frameSize: nat, audioSize: nat, frames: nat, f: nat)
    requires f < frames
    ensures var p, q := Packets(video, audio, frameSize, audioSize, frames), FramePackets(video, audio, frameSize, audioSize, f);
            p[2 * f] == q[0] && p[2 * f + 1] == q[1]
  {
    hide FramePackets;
    if f < frames - 1 {
      FrameIsThere(video, audio, frameSize, audioSize, frames - 1, f);
    }
  }
}
