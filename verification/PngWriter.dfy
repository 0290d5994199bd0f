/**
 The PNG writer of examples/xfce-apps/build-png-fixtures.py, and what its readers see: exactly the
 generated pixels, however the chunks are packaged. CRC and compression are parameters.
 */
module PngWriter {
  import opened Octets
  import opened Arith
  import opened PngFilter
  import opened PngReader
  import opened PngAgree

  type Crc = Bytes -> int

  // One chunk of a file, before it is written.
  datatype Part = Part(name: Bytes, payload: Bytes) {
    ghost predicate Valid() {
      |name| == 4 && |payload| < WORD
    }
  }

  ghost predicate AllValid(parts: seq<Part>) {
    forall i :: 0 <= i < |parts| ==> parts[i].Valid()
  }

  function EncodePart(p: Part, crc: Crc): Bytes {
    Be32(|p.payload|) + (p.name + p.payload) + Be32(crc(p.name + p.payload))
  }

  function EncodeParts(parts: seq<Part>, crc: Crc): Bytes {
    if parts == [] then [] else EncodePart(parts[0], crc) + EncodeParts(parts[1..], crc)
  }

  lemma CutPart(length: Bytes, name: Bytes, payload: Bytes, check: Bytes, rest: Bytes)
    requires |length| == |name| == |check| == 4
    ensures var b, n := length + (name + payload) + check + rest, |payload|;
            && |b| == 12 + n + |rest|
            && b[0..4] == length && b[4..8] == name && b[8..8 + n] == payload && b[12 + n..] == rest
  {
  }

  /** A reader finds an encoded chunk at the front of the bytes, and what follows it right behind. */
  lemma FrontPart(p: Part, crc: Crc, rest: Bytes)
    requires p.Valid()
    ensures var b := EncodePart(p, crc) + rest;
            8 <= |b| && ChunkKind(b) == Classify(p.name) && ChunkPayload(b) == p.payload && AfterChunk(b) == rest
  {
    hide Be32;
    hide BigU32At;
    hide Classify;
    var b := EncodePart(p, crc) + rest;
    CutPart(Be32(|p.payload|), p.name, p.payload, Be32(crc(p.name + p.payload)), rest);
    Be32Reads(|p.payload|, b, 0);
  }

  // The walks over the list of parts instead of their bytes.

  function GatherA(parts: seq<Part>, header: Option<Header>, idat: Bytes): Result<Collected, Error> {
    if parts == [] then Ok((header, idat)) else
    match TakeA(Classify(parts[0].name), parts[0].payload, header, idat)
    case Stop(result) => result
    case Go(header', idat') => GatherA(parts[1..], header', idat')
  }

  function GatherB(parts: seq<Part>, header: Option<Header>, idat: Bytes): Result<Collected, Error> {
    if parts == [] then Ok((header, idat)) else
    match TakeB(Classify(parts[0].name), parts[0].payload, header, idat)
    case Stop(result) => result
    case Go(header', idat') => GatherB(parts[1..], header', idat')
  }

  predicate HasEnd(parts: seq<Part>) {
    exists i :: 0 <= i < |parts| && Classify(parts[i].name) == End
  }

  lemma NoParts(crc: Crc, header: Option<Header>, idat: Bytes)
    ensures EncodeParts([], crc) + [] == [] && !HasEnd([])
    ensures WalkA([], header, idat) == WalkB([], header, idat) == Ok((header, idat))
  {
  }

  lemma FirstPart(parts: seq<Part>, crc: Crc, trailing: Bytes)
    requires parts != [] && AllValid(parts)
    ensures AllValid(parts[1..])
    ensures var b, p := EncodeParts(parts, crc) + trailing, parts[0];
            && 8 <= |b| && ChunkKind(b) == Classify(p.name) && ChunkPayload(b) == p.payload
            && AfterChunk(b) == EncodeParts(parts[1..], crc) + trailing
  {
    hide ChunkKind;
    hide ChunkPayload;
    hide AfterChunk;
    hide EncodePart;
    hide Classify;
    var rest := EncodeParts(parts[1..], crc) + trailing;
    assert EncodeParts(parts, crc) + trailing == EncodePart(parts[0], crc) + rest;
    FrontPart(parts[0], crc, rest);
  }

  lemma {:induction false} WalkAIsGather(parts: seq<Part>, crc: Crc, trailing: Bytes, header: Option<Header>, idat: Bytes)
    requires AllValid(parts) && (HasEnd(parts) || trailing == [])
    ensures WalkA(EncodeParts(parts, crc) + trailing, header, idat) == GatherA(parts, header, idat)
    decreases parts
  {
    hide TakeA;
    hide Classify;
    hide WalkA;
    hide EncodeParts;
    hide HasEnd;
    if parts == [] {
      NoParts(crc, header, idat);
    } else {
      var rest := EncodeParts(parts[1..], crc) + trailing;
      var b := EncodeParts(parts, crc) + trailing;
      FirstPart(parts, crc, trailing);
      UnfoldA(b, header, idat, Classify(parts[0].name), parts[0].payload, rest);
      var t := TakeA(Classify(parts[0].name), parts[0].payload, header, idat);
      if t.Go? {
        EndIsLater(parts, header, idat);
        WalkAIsGather(parts[1..], crc, trailing, t.header, t.idat);
      }
    }
  }

  lemma EndIsLater(parts: seq<Part>, header: Option<Header>, idat: Bytes)
    requires parts != []
    ensures TakeA(Classify(parts[0].name), parts[0].payload, header, idat).Go? && HasEnd(parts) ==> HasEnd(parts[1..])
    ensures TakeB(Classify(parts[0].name), parts[0].payload, header, idat).Go? && HasEnd(parts) ==> HasEnd(parts[1..])
  {
    if HasEnd(parts) && Classify(parts[0].name) != End {
      var i :| 0 <= i < |parts| && Classify(parts[i].name) == End;
      assert parts[1..][i - 1] == parts[i];
    }
  }

  lemma {:induction false} WalkBIsGather(parts: seq<Part>, crc: Crc, trailing: Bytes, header: Option<Header>, idat: Bytes)
    requires AllValid(parts) && (HasEnd(parts) || trailing == [])
    ensures WalkB(EncodeParts(parts, crc) + trailing, header, idat) == GatherB(parts, header, idat)
    decreases parts
  {
    hide TakeB;
    hide Classify;
    hide WalkB;
    hide EncodeParts;
    hide HasEnd;
    if parts == [] {
      NoParts(crc, header, idat);
    } else {
      var rest := EncodeParts(parts[1..], crc) + trailing;
      var b := EncodeParts(parts, crc) + trailing;
      FirstPart(parts, crc, trailing);
      UnfoldB(b, header, idat, Classify(parts[0].name), parts[0].payload, rest);
      var t := TakeB(Classify(parts[0].name), parts[0].payload, header, idat);
      if t.Go? {
        EndIsLater(parts, header, idat);
        WalkBIsGather(parts[1..], crc, trailing, t.header, t.idat);
      }
    }
  }

  // What matters about a list of parts: the IHDR payloads and the concatenated IDAT payloads before IEND.

  function Headers(parts: seq<Part>): seq<Bytes> {
    if parts == [] then [] else
    match Classify(parts[0].name)
    case Image => [parts[0].payload] + Headers(parts[1..])
    case End => []
    case _ => Headers(parts[1..])
  }

  function Compressed(parts: seq<Part>): Bytes {
    if parts == [] then [] else
    match Classify(parts[0].name)
    case Data => parts[0].payload + Compressed(parts[1..])
    case End => []
    case _ => Compressed(parts[1..])
  }

  function LastHeader(headers: seq<Bytes>, header: Option<Header>): Option<Header>
    requires forall i :: 0 <= i < |headers| ==> 10 <= |headers[i]|
  {
    if headers == [] then header else LastHeader(headers[1..], Some(ParseHeader(headers[0])))
  }

  function EssenceA(headers: seq<Bytes>, header: Option<Header>, idat: Bytes): Result<Collected, Error> {
    if forall i :: 0 <= i < |headers| ==> 10 <= |headers[i]|
    then Ok((LastHeader(headers, header), idat)) else Err(StructError)
  }

  function EssenceB(headers: seq<Bytes>, header: Option<Header>, idat: Bytes): Result<Collected, Error> {
    if forall i :: 0 <= i < |headers| ==> 13 == |headers[i]|
    then Ok((LastHeader(headers, header), idat)) else Err(StructError)
  }

  lemma EssenceCons(first: Bytes, headers: seq<Bytes>, header: Option<Header>, idat: Bytes)
    ensures EssenceA([first] + headers, header, idat)
            == if |first| < 10 then Err(StructError) else EssenceA(headers, Some(ParseHeader(first)), idat)
    ensures EssenceB([first] + headers, header, idat)
            == if |first| != 13 then Err(StructError) else EssenceB(headers, Some(ParseHeader(first)), idat)
  {
    var all := [first] + headers;
    assert all[1..] == headers && all[0] == first;
    assert forall i :: 0 <= i < |headers| ==> headers[i] == all[i + 1];
    hide ParseHeader;
  }

  lemma {:induction false} GatherIsEssence(parts: seq<Part>, header: Option<Header>, idat: Bytes)
    ensures GatherA(parts, header, idat) == EssenceA(Headers(parts), header, idat + Compressed(parts))
    ensures GatherB(parts, header, idat) == EssenceB(Headers(parts), header, idat + Compressed(parts))
    decreases parts
  {
    hide EssenceA;
    hide EssenceB;
    hide ParseHeader;
    hide Classify;
    NoHeaders(header, idat);
    assert idat + [] == idat;
    if parts != [] {
      var p, rest := parts[0], parts[1..];
      match Classify(p.name) {
        case Image =>
          EssenceCons(p.payload, Headers(rest), header, idat + Compressed(rest));
          if 10 <= |p.payload| {
            GatherIsEssence(rest, Some(ParseHeader(p.payload)), idat);
          }
        case Data =>
          GatherIsEssence(rest, header, idat + p.payload);
          assert idat + p.payload + Compressed(rest) == idat + (p.payload + Compressed(rest));
        case End =>
        case Other =>
          GatherIsEssence(rest, header, idat);
      }
    }
  }

  lemma NoHeaders(header: Option<Header>, idat: Bytes)
    ensures EssenceA([], header, idat) == EssenceB([], header, idat) == Ok((header, idat))
  {
  }

  /** The file that a list of parts makes, with anything behind IEND. */
  function File(parts: seq<Part>, crc: Crc, trailing: Bytes): Bytes {
    SIGNATURE + (EncodeParts(parts, crc) + trailing)
  }

  /**
   Packaging does not matter. Two files decode alike, in both decoders, if they have the same IHDR
   payloads and the same IDAT bytes: however those are split, whatever other chunks stand between them,
   whatever CRCs are written, and whatever follows IEND.
   */
  lemma Repackaging(parts: seq<Part>, crc: Crc, trailing: Bytes, parts': seq<Part>, crc': Crc, trailing': Bytes,
                    zlib: Zlib)
    requires AllValid(parts) && (HasEnd(parts) || trailing == [])
    requires AllValid(parts') && (HasEnd(parts') || trailing' == [])
    requires Headers(parts) == Headers(parts') && Compressed(parts) == Compressed(parts')
    ensures DecodeA(File(parts, crc, trailing), zlib) == DecodeA(File(parts', crc', trailing'), zlib)
    ensures DecodeB(File(parts, crc, trailing), zlib) == DecodeB(File(parts', crc', trailing'), zlib)
  {
    hide PictureA;
    hide PictureB;
    FileEssence(parts, crc, trailing, zlib);
    FileEssence(parts', crc', trailing', zlib);
  }

  lemma FileEssence(parts: seq<Part>, crc: Crc, trailing: Bytes, zlib: Zlib)
    requires AllValid(parts) && (HasEnd(parts) || trailing == [])
    ensures var data := File(parts, crc, trailing);
            && SIGNATURE <= data
            && WalkA(data[8..], None, []) == EssenceA(Headers(parts), None, Compressed(parts))
            && WalkB(data[8..], None, []) == EssenceB(Headers(parts), None, Compressed(parts))
  {
    hide EssenceA;
    hide EssenceB;
    hide Headers;
    hide Compressed;
    var data := File(parts, crc, trailing);
    assert data[8..] == EncodeParts(parts, crc) + trailing;
    WalkAIsGather(parts, crc, trailing, None, []);
    WalkBIsGather(parts, crc, trailing, None, []);
    GatherIsEssence(parts, None, []);
    assert [] + Compressed(parts) == Compressed(parts);
  }

  // The writer.

  type Color = (Byte, Byte, Byte)

  function Brighten(channel: Byte): Byte {
    var c: int := channel;
    Min(255, c + 35)
  }

  function PixelColor(x: nat, y: nat, first: Color, second: Color): Color {
    var color := if (x + y * 2) % 420 < 210 then first else second;
    if 90 < x < 870 && 80 < y < 460
    then (Brighten(color.0), Brighten(color.1), Brighten(color.2)) else color
  }

  function PixelRow(y: nat, width: nat, first: Color, second: Color): (row: Bytes)
    ensures |row| == width * 3
  {
    if width == 0 then [] else
    var c := PixelColor(width - 1, y, first, second);
    PixelRow(y, width - 1, first, second) + [c.0, c.1, c.2]
  }

  function PixelRows(height: nat, width: nat, first: Color, second: Color): (rows: seq<Bytes>)
    ensures |rows| == height && forall y :: 0 <= y < height ==> rows[y] == PixelRow(y, width, first, second)
  {
    seq(height, y requires 0 <= y < height => PixelRow(y, width, first, second))
  }

  /** Each row behind a zero filter byte. */
  function RawImage(height: nat, width: nat, first: Color, second: Color): Bytes {
    if height == 0 then []
    else RawImage(height - 1, width, first, second) + [0] + PixelRow(height - 1, width, first, second)
  }

  function HeaderPayload(width: nat, height: nat): (h: Bytes)
    ensures |h| == 13
  {
    Be32(width) + Be32(height) + [8, 2, 0, 0, 0]
  }

  function FileParts(width: nat, height: nat, z: Bytes): seq<Part> {
    [Part(IHDR, HeaderPayload(width, height)), Part(IDAT, z), Part(IEND, [])]
  }

  /** write_png. struct.pack raises when a dimension or the compressed length does not fit in 32 bits. */
  method WritePng(width: nat, height: nat, first: Color, second: Color, compress: Bytes -> Bytes, crc: Crc)
    returns (data: Option<Bytes>)
    ensures var z := compress(RawImage(height, width, first, second));
            data == if width < WORD && height < WORD && |z| < WORD
                    then Some(File(FileParts(width, height, z), crc, [])) else None
  {
    var rows: Bytes := [];
    for y := 0 to height
      invariant rows == RawImage(y, width, first, second)
    {
      ghost var before := rows;
      rows := rows + [0];
      for x := 0 to width
        invariant rows == before + [0] + PixelRow(y, x, first, second)
      {
        var c := PixelColor(x, y, first, second);
        rows := rows + [c.0, c.1, c.2];
      }
    }
    var z := compress(rows);
    if WORD <= width || WORD <= height || WORD <= |z| {
      return None;
    }
    var signature := SIGNATURE;
    var parts := FileParts(width, height, z);
    ThreeParts(parts[0], parts[1], parts[2], crc);
    data := Some(signature + EncodePart(parts[0], crc) + EncodePart(parts[1], crc) + EncodePart(parts[2], crc));
  }

  lemma ThreeParts(a: Part, b: Part, c: Part, crc: Crc)
    ensures SIGNATURE + EncodePart(a, crc) + EncodePart(b, crc) + EncodePart(c, crc) == File([a, b, c], crc, [])
  {
    hide EncodePart;
    var x, y, z := EncodePart(a, crc), EncodePart(b, crc), EncodePart(c, crc);
    assert [a, b, c][1..] == [b, c] && [b, c][1..] == [c] && [c][1..] == [];
    assert EncodeParts([c], crc) == z + EncodeParts([], crc) == z + [] == z;
    assert EncodeParts([b, c], crc) == y + z;
    assert EncodeParts([a, b, c], crc) == x + (y + z);
    assert SIGNATURE + x + y + z == SIGNATURE + (x + (y + z) + []);
  }

  /** Filter type 0 leaves a row as it is. */
  lemma NoneFilter(row: Bytes, previous: Bytes, channels: nat)
    requires 0 < channels && |row| == |previous|
    ensures Unfilter(0, row, previous, channels, |row|) == row
  {
    assert Filter(0, row, previous, channels) == row;
    UnfilterFilter(0, row, previous, channels, |row|);
  }

  lemma {:induction false} RowsOfRaw(y: nat, height: nat, width: nat, first: Color, second: Color, previous: Bytes)
    requires y <= height && |previous| == width * 3
    ensures RowsA(RawFrom(y, height, width, first, second), height - y, previous, 3)
            == Ok(PixelRows(height, width, first, second)[y..])
    decreases height - y
  {
    hide PixelRow;
    hide Unfilter;
    hide RowsA;
    var rows := PixelRows(height, width, first, second);
    if y < height {
      var row, rest := rows[y], RawFrom(y + 1, height, width, first, second);
      FirstRow(row, rest);
      NoneFilter(row, previous, 3);
      UnfoldRowsA([0] + row + rest, height - y, previous, 3, Ok(row), rest);
      RowsOfRaw(y + 1, height, width, first, second, row);
      assert rows[y..] == [row] + rows[y + 1..];
    } else {
      assert rows[y..] == [];
      NoRowsLeft(RawFrom(y, height, width, first, second), previous, 3);
    }
  }

  lemma FirstRow(row: Bytes, rest: Bytes)
    ensures var raw := [0] + row + rest;
            && raw != [] && raw[0] == 0
            && Slice(raw, 1, 1 + |row|) == row && Drop(raw, 1 + |row|) == rest
  {
  }

  /** The raw image from row y on. */
  function RawFrom(y: nat, height: nat, width: nat, first: Color, second: Color): Bytes
    requires y <= height
    decreases height - y
  {
    if y == height then [] else [0] + PixelRow(y, width, first, second) + RawFrom(y + 1, height, width, first, second)
  }

  lemma {:induction false} RawSplits(y: nat, height: nat, width: nat, first: Color, second: Color)
    requires y <= height
    ensures RawImage(y, width, first, second) + RawFrom(y, height, width, first, second)
            == RawImage(height, width, first, second)
    decreases height - y
  {
    hide PixelRow;
    var before := RawImage(y, width, first, second);
    if y < height {
      RawSplits(y + 1, height, width, first, second);
      var row, after := PixelRow(y, width, first, second), RawFrom(y + 1, height, width, first, second);
      assert before + ([0] + row + after) == before + [0] + row + after;
    } else {
      assert before + [] == before;
    }
  }

  lemma HeaderReads(width: nat, height: nat)
    requires width < WORD && height < WORD
    ensures ParseHeader(HeaderPayload(width, height)) == Header(width, height, 8, 2, 0)
  {
    hide Be32;
    hide BigU32At;
    var h := HeaderPayload(width, height);
    assert h[0..4] == Be32(width) && h[4..8] == Be32(height) && h[8..] == [8, 2, 0, 0, 0];
    assert h[8] == h[8..][0] && h[9] == h[8..][1] && h[12] == h[8..][4];
    Be32Reads(width, h, 0);
    Be32Reads(height, h, 4);
  }

  /**
   Both readers invert the writer: from any file whose chunks carry the writer's header and compressed
   rows, in any packaging, they read exactly the generated pixels.
   */
  lemma ReadsWhatWasWritten(width: nat, height: nat, first: Color, second: Color, z: Bytes, zlib: Zlib,
                            parts: seq<Part>, crc: Crc, trailing: Bytes)
    requires width < WORD && height < WORD
    requires z != [] && zlib(z) == Some(RawImage(height, width, first, second))
    requires AllValid(parts) && (HasEnd(parts) || trailing == [])
    requires Headers(parts) == [HeaderPayload(width, height)] && Compressed(parts) == z
    ensures var picture := Picture(width, height, 3, PixelRows(height, width, first, second));
            && DecodeA(File(parts, crc, trailing), zlib) == Ok(picture)
            && DecodeB(File(parts, crc, trailing), zlib) == Ok(picture)
  {
    hide PictureA;
    hide PictureB;
    hide PixelRows;
    hide RawImage;
    hide File;
    hide EssenceA;
    hide EssenceB;
    hide WalkA;
    hide WalkB;
    hide HeaderPayload;
    var raw := RawImage(height, width, first, second);
    FileEssence(parts, crc, trailing, zlib);
    HeaderReads(width, height);
    OneHeader(HeaderPayload(width, height), z);
    RowsOfImage(width, height, first, second);
    PictureOfRows(Header(width, height, 8, 2, 0), z, zlib, raw, PixelRows(height, width, first, second));
  }

  lemma RowsOfImage(width: nat, height: nat, first: Color, second: Color)
    ensures var raw := RawImage(height, width, first, second);
            RowsA(raw, height, Zeros(width * 3), 3) == RowsB(raw, height, Zeros(width * 3), 3)
            == Ok(PixelRows(height, width, first, second))
  {
    hide RowsA;
    hide RowsB;
    RawSplits(0, height, width, first, second);
    assert [] + RawFrom(0, height, width, first, second) == RawFrom(0, height, width, first, second);
    RowsOfRaw(0, height, width, first, second, Zeros(width * 3));
    assert PixelRows(height, width, first, second)[0..] == PixelRows(height, width, first, second);
    RowsAgree(RawImage(height, width, first, second), height, Zeros(width * 3), 3);
  }

  lemma PictureOfRows(h: Header, z: Bytes, zlib: Zlib, raw: Bytes, rows: seq<Bytes>)
    requires h.depth == 8 && h.color == 2 && h.interlace == 0 && z != [] && zlib(z) == Some(raw)
    requires RowsA(raw, h.height, Zeros(h.width * 3), 3) == Ok(rows)
    requires RowsB(raw, h.height, Zeros(h.width * 3), 3) == Ok(rows)
    ensures PictureA((Some(h), z), zlib) == PictureB((Some(h), z), zlib) == Ok(Picture(h.width, h.height, 3, rows))
  {
    hide RowsA;
    hide RowsB;
  }

  lemma OneHeader(h: Bytes, z: Bytes)
    requires |h| == 13
    ensures EssenceA([h], None, z) == EssenceB([h], None, z) == Ok((Some(ParseHeader(h)), z))
  {
    EssenceCons(h, [], None, z);
    assert [h] + [] == [h];
    NoHeaders(Some(ParseHeader(h)), z);
  }

  lemma PartsOfFile(h: Bytes, z: Bytes)
    requires |h| == 13 && |z| < WORD
    ensures var parts := [Part(IHDR, h), Part(IDAT, z), Part(IEND, [])];
            AllValid(parts) && HasEnd(parts) && Headers(parts) == [h] && Compressed(parts) == z
  {
    var parts := [Part(IHDR, h), Part(IDAT, z), Part(IEND, [])];
    assert Classify(parts[0].name) == Image && Classify(parts[1].name) == Data && Classify(parts[2].name) == End;
    var last := parts[1..][1..];
    assert parts[1..][0] == parts[1] && last == [parts[2]];
    assert Headers(last) == [] && Compressed(last) == [];
    assert Headers(parts[1..]) == [] && Compressed(parts[1..]) == z + [];
  }

  /** The three chunks of the writer are one such packaging. */
  lemma WriterParts(width: nat, height: nat, z: Bytes)
    requires |z| < WORD
    ensures var parts := FileParts(width, height, z);
            && AllValid(parts) && HasEnd(parts)
            && Headers(parts) == [HeaderPayload(width, height)] && Compressed(parts) == z
  {
    PartsOfFile(HeaderPayload(width, height), z);
  }

  /**
   Writer and readers together: what is written is read back by both decoders as exactly the generated pixels,
   if decompression undoes the compression of this image. None stands for the writer's error.
   */
  method WriteAndRead(width: nat, height: nat, first: Color, second: Color, compress: Bytes -> Bytes, zlib: Zlib,
                      crc: Crc)
    returns (r: Option<(Result<Picture, Error>, Result<Picture, Error>)>)
    requires var raw := RawImage(height, width, first, second); compress(raw) != [] && zlib(compress(raw)) == Some(raw)
    ensures r.None? <==> WORD <= width || WORD <= height || WORD <= |compress(RawImage(height, width, first, second))|
    ensures r.Some? ==>
              r.value.0 == r.value.1 == Ok(Picture(width, height, 3, PixelRows(height, width, first, second)))
  {
    hide DecodeA;
    hide DecodeB;
    hide FileParts;
    hide File;
    hide Headers;
    hide Compressed;
    hide RawImage;
    hide PixelRows;
    var data := WritePng(width, height, first, second, compress, crc);
    if data.None? {
      return None;
    }
    ghost var z := compress(RawImage(height, width, first, second));
    WriterParts(width, height, z);
    ReadsWhatWasWritten(width, height, first, second, z, zlib, FileParts(width, height, z), crc, []);
    var a := ReadPngA(data.value, zlib);
    var b := ReadPngB(data.value, zlib);
    r := Some((a, b));
  }

  // Where the decoders part: one file that only A accepts, and one that only B accepts. Each is one pixel.

  /** Any three chunks IHDR, IDAT, IEND: what the walks make of them. */
  lemma ThreeChunkFile(h: Bytes, z: Bytes, crc: Crc, zlib: Zlib)
    requires |h| == 13 && |z| < WORD
    ensures var data := File([Part(IHDR, h), Part(IDAT, z), Part(IEND, [])], crc, []);
            && DecodeA(data, zlib) == PictureA((Some(ParseHeader(h)), z), zlib)
            && DecodeB(data, zlib) == PictureB((Some(ParseHeader(h)), z), zlib)
  {
    hide PictureA;
    hide PictureB;
    hide ParseHeader;
    hide File;
    hide EssenceA;
    hide EssenceB;
    hide WalkA;
    hide WalkB;
    PartsOfFile(h, z);
    FileEssence([Part(IHDR, h), Part(IDAT, z), Part(IEND, [])], crc, [], zlib);
    OneHeader(h, z);
  }

  function OnePixel(interlace: Byte): (h: Bytes)
    ensures |h| == 13 && ParseHeader(h) == Header(1, 1, 8, 2, interlace)
  {
    [0, 0, 0, 1, 0, 0, 0, 1, 8, 2, 0, 0, interlace]
  }

  /** Decoder A reads an interlaced file as if it were not; decoder B refuses it. */
  lemma InterlacedOnlyA(crc: Crc)
    ensures var data, zlib: Zlib := File([Part(IHDR, OnePixel(1)), Part(IDAT, [1]), Part(IEND, [])], crc, []),
                                    _ => Some([0, 7, 8, 9]);
            && DecodeA(data, zlib) == Ok(Picture(1, 1, 3, [[7, 8, 9]]))
            && DecodeB(data, zlib) == Err(Unsupported)
  {
    hide RowsA;
    hide RowsB;
    hide OnePixel;
    hide ParseHeader;
    hide File;
    hide DecodeA;
    hide DecodeB;
    var zlib: Zlib := _ => Some([0, 7, 8, 9]);
    ThreeChunkFile(OnePixel(1), [1], crc, zlib);
    var row: Bytes := [7, 8, 9];
    assert [0] + row == [0, 7, 8, 9];
    OneRow(row);
  }

  /** Raw data that is cut inside the last row: decoder B fills up with zeros; decoder A raises. */
  lemma CutRowOnlyB(crc: Crc)
    ensures var data, zlib: Zlib := File([Part(IHDR, OnePixel(0)), Part(IDAT, [1]), Part(IEND, [])], crc, []),
                                    _ => Some([0, 7]);
            && DecodeA(data, zlib) == Err(IndexError)
            && DecodeB(data, zlib) == Ok(Picture(1, 1, 3, [[7, 0, 0]]))
  {
    hide RowsA;
    hide RowsB;
    hide OnePixel;
    hide ParseHeader;
    hide File;
    hide DecodeA;
    hide DecodeB;
    var zlib: Zlib := _ => Some([0, 7]);
    ThreeChunkFile(OnePixel(0), [1], crc, zlib);
    CutRow(7);
  }

  lemma OneRow(row: Bytes)
    requires |row| == 3
    ensures RowsA([0] + row, 1, Zeros(1 * 3), 3) == Ok([row])
  {
    hide Unfilter;
    FirstRow(row, []);
    assert [0] + row + [] == [0] + row;
    NoneFilter(row, Zeros(3), 3);
    UnfoldRowsA([0] + row, 1, Zeros(3), 3, Ok(row), []);
    NoRowsLeft([], row, 3);
  }

  lemma CutRow(x: Byte)
    ensures RowsA([0, x], 1, Zeros(1 * 3), 3) == Err(IndexError)
    ensures RowsB([0, x], 1, Zeros(1 * 3), 3) == Ok([[x, 0, 0]])
  {
    var raw: Bytes := [0, x];
    assert Slice(raw, 1, 4) == [x] && Drop(raw, 4) == [];
    assert Unfilter(0, [x], Zeros(3), 3, 1) == [x] by {
      assert Unfilter(0, [x], Zeros(3), 3, 0) == [];
    }
    assert RowB(0, [x], Zeros(3), 3, 3) == Ok([x] + Zeros(2)) && [x] + Zeros(2) == [x, 0, 0];
    NoRowsLeft([], [x, 0, 0], 3);
  }

  // What the writer draws and writes, spelled out.

  /**
   The picture: bands of 210 units of x + 2y in alternating colors, and a brighter frame inside. The pixel (x, y)
   lies in the q-th pair of bands.
   */
  lemma PixelMeans(x: nat, y: nat, q: nat, first: Color, second: Color)
    requires 420 * q <= x + 2 * y < 420 * q + 420
    ensures var band, pixel := if x + 2 * y < 420 * q + 210 then first else second, PixelColor(x, y, first, second);
            if 91 <= x <= 869 && 81 <= y <= 459
            then Brighter(band.0, pixel.0) && Brighter(band.1, pixel.1) && Brighter(band.2, pixel.2)
            else pixel == band
  {
    DivModUnique(x + y * 2, 420, q, x + 2 * y - 420 * q);
  }

  /** Brighter by 35, as far as there is room. */
  ghost predicate Brighter(before: Byte, after: Byte) {
    (before <= 220 && after == before + 35) || (before > 220 && after == 255)
  }

  /** The three bytes of the pixel in column x of a row. */
  lemma {:induction false} PixelAt(x: nat, y: nat, width: nat, first: Color, second: Color)
    requires x < width
    ensures var row, c := PixelRow(y, width, first, second), PixelColor(x, y, first, second);
            row[3 * x] == c.0 && row[3 * x + 1] == c.1 && row[3 * x + 2] == c.2
  {
    hide PixelColor;
    if x < width - 1 {
      PixelAt(x, y, width - 1, first, second);
    }
  }

  /** The bytes of the signature, and of the three chunks. */
  lemma WrittenBytes(width: nat, height: nat, z: Bytes, crc: Crc)
    ensures SIGNATURE == [0x89] + Ascii("PNG") + [13, 10, 26, 10]
    ensures EncodePart(FileParts(width, height, z)[0], crc)
            == [0, 0, 0, 13] + Ascii("IHDR") + Be32(width) + Be32(height) + [8, 2, 0, 0, 0]
               + Be32(crc(Ascii("IHDR") + (Be32(width) + Be32(height) + [8, 2, 0, 0, 0])))
    ensures EncodePart(FileParts(width, height, z)[1], crc)
            == Be32(|z|) + Ascii("IDAT") + z + Be32(crc(Ascii("IDAT") + z))
    ensures EncodePart(FileParts(width, height, z)[2], crc) == [0, 0, 0, 0] + Ascii("IEND") + Be32(crc(Ascii("IEND")))
  {
    ChunkNames();
    var h := HeaderPayload(width, height);
    assert h == Be32(width) + Be32(height) + [8, 2, 0, 0, 0];
    assert Be32(13) == [0, 0, 0, 13] && Be32(0) == [0, 0, 0, 0];
    hide Be32;
    hide Ascii;
    assert IEND + [] == IEND;
    assert Be32(13) + (IHDR + h) == Be32(13) + IHDR + Be32(width) + Be32(height) + [8, 2, 0, 0, 0];
    assert Be32(|z|) + (IDAT + z) == Be32(|z|) + IDAT + z;
  }

  lemma ChunkNames()
    ensures IHDR == Ascii("IHDR") && IDAT == Ascii("IDAT") && IEND == Ascii("IEND")
  {
  }

  /** Two pixels, filter type 1: the second one is added to the first. */
  lemma SubExample(crc: Crc)
    ensures var h: Bytes := [0, 0, 0, 2, 0, 0, 0, 1, 8, 2, 0, 0, 0];
            var data, zlib: Zlib := File([Part(IHDR, h), Part(IDAT, [1]), Part(IEND, [])], crc, []),
                                    _ => Some([1, 1, 2, 3, 1, 1, 1]);
            DecodeA(data, zlib) == DecodeB(data, zlib) == Ok(Picture(2, 1, 3, [[1, 2, 3, 2, 3, 4]]))
  {
    hide RowsA;
    hide RowsB;
    hide File;
    hide DecodeA;
    hide DecodeB;
    var h: Bytes := [0, 0, 0, 2, 0, 0, 0, 1, 8, 2, 0, 0, 0];
    var zlib: Zlib := _ => Some([1, 1, 2, 3, 1, 1, 1]);
    ThreeChunkFile(h, [1], crc, zlib);
    HeaderFields(h);
    SubRow();
    hide ParseHeader;
  }

  lemma SubRow()
    ensures RowsA([1, 1, 2, 3, 1, 1, 1], 1, Zeros(2 * 3), 3) == Ok([[1, 2, 3, 2, 3, 4]])
    ensures RowsB([1, 1, 2, 3, 1, 1, 1], 1, Zeros(2 * 3), 3) == Ok([[1, 2, 3, 2, 3, 4]])
  {
    hide Unfilter;
    var raw, scan: Bytes := [1, 1, 2, 3, 1, 1, 1], [1, 2, 3, 1, 1, 1];
    assert Slice(raw, 1, 7) == scan && Drop(raw, 7) == [];
    var row := Unfilter(1, scan, Zeros(6), 3, 6);
    SubPixels(scan);
    UnfoldRowsA(raw, 1, Zeros(6), 3, Ok(row), []);
    NoRowsLeft([], row, 3);
    RowsAgree(raw, 1, Zeros(6), 3);
  }

  lemma SubPixels(scan: Bytes)
    requires scan == [1, 2, 3, 1, 1, 1]
    ensures Unfilter(1, scan, Zeros(6), 3, 6) == [1, 2, 3, 2, 3, 4]
  {
    hide Unfilter;
    hide Paeth;
    var row := Unfilter(1, scan, Zeros(6), 3, 6);
    UnfilterMeans(1, scan, Zeros(6), 3, 0);
    UnfilterMeans(1, scan, Zeros(6), 3, 1);
    UnfilterMeans(1, scan, Zeros(6), 3, 2);
    UnfilterMeans(1, scan, Zeros(6), 3, 3);
    UnfilterMeans(1, scan, Zeros(6), 3, 4);
    UnfilterMeans(1, scan, Zeros(6), 3, 5);
    assert |row| == 6;
  }
}
