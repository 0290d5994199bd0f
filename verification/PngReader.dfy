/**
 Two PNG decoders that were written separately: the chunk walk (section 3.2 of RFC 2083) and the row loop
 of examples/chrome/assert-example-page.py, called A here, and of examples/glx-probe/assert-screenshot.py,
 called B. zlib is a parameter. Neither decoder checks a CRC.
 */
module PngReader {
  import opened Octets
  import opened PngFilter

  const SIGNATURE: Bytes := [0x89, 0x50, 0x4E, 0x47, 0x0D, 0x0A, 0x1A, 0x0A]
  const IHDR: Bytes := [0x49, 0x48, 0x44, 0x52]
  const IDAT: Bytes := [0x49, 0x44, 0x41, 0x54]
  const IEND: Bytes := [0x49, 0x45, 0x4E, 0x44]

  datatype Error = NotPng | StructError | Unsupported | ZlibError | IndexError | UnknownFilter

  // Decoder A ignores the interlace method; an IHDR shorter than 13 bytes has none.
  datatype Header = Header(width: nat, height: nat, depth: nat, color: nat, interlace: nat)

  datatype Picture = Picture(width: nat, height: nat, channels: nat, rows: seq<Bytes>)

  type Zlib = Bytes -> Option<Bytes>

  function ParseHeader(payload: Bytes): Header
    requires 10 <= |payload|
  {
    Header(BigU32At(payload, 0), BigU32At(payload, 4), payload[8], payload[9],
           if 13 <= |payload| then payload[12] else 0)
  }

  // The chunk at the front of the remaining bytes. All slices are clipped at the end of the file.

  function ChunkLength(rest: Bytes): nat
    requires 4 <= |rest|
  {
    BigU32At(rest, 0)
  }

  function ChunkKind(rest: Bytes): Kind {
    Classify(Slice(rest, 4, 8))
  }

  function ChunkPayload(rest: Bytes): Bytes
    requires 4 <= |rest|
  {
    Slice(rest, 8, 8 + ChunkLength(rest))
  }

  function AfterChunk(rest: Bytes): (next: Bytes)
    requires 4 <= |rest|
    ensures |next| < |rest|
  {
    Drop(rest, 12 + ChunkLength(rest))
  }

  datatype Kind = Image | Data | End | Other

  function Classify(name: Bytes): Kind {
    if name == IHDR then Image else if name == IDAT then Data else if name == IEND then End else Other
  }

  // The image header, if there was one, and the compressed bytes.
  type Collected = (Option<Header>, Bytes)

  // What one chunk does to the walk.
  datatype Turn = Stop(result: Result<Collected, Error>) | Go(header: Option<Header>, idat: Bytes)

  function TakeA(kind: Kind, payload: Bytes, header: Option<Header>, idat: Bytes): Turn {
    match kind
    case Image => if |payload| < 10 then Stop(Err(StructError)) else Go(Some(ParseHeader(payload)), idat)
    case Data => Go(header, idat + payload)
    case End => Stop(Ok((header, idat)))
    case Other => Go(header, idat)
  }

  function TakeB(kind: Kind, payload: Bytes, header: Option<Header>, idat: Bytes): Turn {
    match kind
    case Image => if |payload| != 13 then Stop(Err(StructError)) else Go(Some(ParseHeader(payload)), idat)
    case Data => Go(header, idat + payload)
    case End => Stop(Ok((header, idat)))
    case Other => Go(header, idat)
  }

  function WalkA(rest: Bytes, header: Option<Header>, idat: Bytes): Result<Collected, Error>
    decreases |rest|
  {
    if |rest| < 8 then Ok((header, idat)) else
    match TakeA(ChunkKind(rest), ChunkPayload(rest), header, idat)
    case Stop(result) => result
    case Go(header', idat') => WalkA(AfterChunk(rest), header', idat')
  }

  function WalkB(rest: Bytes, header: Option<Header>, idat: Bytes): Result<Collected, Error>
    decreases |rest|
  {
    if rest == [] then Ok((header, idat))
    else if |rest| < 4 then Err(StructError)
    else
      match TakeB(ChunkKind(rest), ChunkPayload(rest), header, idat)
      case Stop(result) => result
      case Go(header', idat') => WalkB(AfterChunk(rest), header', idat')
  }

  // One row of n bytes.

  function RowA(filter: Byte, scan: Bytes, previous: Bytes, channels: nat, n: nat): (r: Result<Bytes, Error>)
    requires 0 < channels && |previous| == n && |scan| <= n
    ensures r.Ok? ==> |r.value| == n
  {
    if n == 0 then Ok([])
    else if scan == [] then Err(IndexError)
    else if filter > 4 then Err(UnknownFilter)
    else if |scan| < n then Err(IndexError)
    else Ok(Unfilter(filter, scan, previous, channels, n))
  }

  function Zeros(n: nat): (z: Bytes)
    ensures |z| == n
  {
    seq(n, _ => 0)
  }

  function RowB(filter: Byte, scan: Bytes, previous: Bytes, channels: nat, n: nat): (r: Result<Bytes, Error>)
    requires 0 < channels && |previous| == n && |scan| <= n
    ensures r.Ok? ==> |r.value| == n
  {
    if filter > 4 && scan != [] then Err(UnknownFilter)
    else Ok(Unfilter(filter, scan, previous, channels, |scan|) + Zeros(n - |scan|))
  }

  function RowsA(raw: Bytes, height: nat, previous: Bytes, channels: nat): Result<seq<Bytes>, Error>
    requires 0 < channels
    decreases height
  {
    if height == 0 then Ok([])
    else if raw == [] then Err(IndexError)
    else
      var n := |previous|;
      match RowA(raw[0], Slice(raw, 1, 1 + n), previous, channels, n)
      case Err(e) => Err(e)
      case Ok(row) =>
        match RowsA(Drop(raw, 1 + n), height - 1, row, channels)
        case Err(e) => Err(e)
        case Ok(rows) => Ok([row] + rows)
  }

  function RowsB(raw: Bytes, height: nat, previous: Bytes, channels: nat): Result<seq<Bytes>, Error>
    requires 0 < channels
    decreases height
  {
    if height == 0 then Ok([])
    else if raw == [] then Err(IndexError)
    else
      var n := |previous|;
      match RowB(raw[0], Slice(raw, 1, 1 + n), previous, channels, n)
      case Err(e) => Err(e)
      case Ok(row) =>
        match RowsB(Drop(raw, 1 + n), height - 1, row, channels)
        case Err(e) => Err(e)
        case Ok(rows) => Ok([row] + rows)
  }

  function Channels(color: nat): nat {
    if color == 6 then 4 else 3
  }

  function PictureA(c: Collected, zlib: Zlib): Result<Picture, Error> {
    if c.0.None? || c.1 == [] || c.0.value.depth != 8 || !(c.0.value.color in {2, 6}) then Err(Unsupported) else
    var h, channels := c.0.value, Channels(c.0.value.color);
    match zlib(c.1)
    case None => Err(ZlibError)
    case Some(raw) =>
      match RowsA(raw, h.height, Zeros(h.width * channels), channels)
      case Err(e) => Err(e)
      case Ok(rows) => Ok(Picture(h.width, h.height, channels, rows))
  }

  function PictureB(c: Collected, zlib: Zlib): Result<Picture, Error> {
    if c.0.None? || c.0.value.depth != 8 || !(c.0.value.color in {2, 6}) || c.0.value.interlace != 0
    then Err(Unsupported) else
    var h, channels := c.0.value, Channels(c.0.value.color);
    match zlib(c.1)
    case None => Err(ZlibError)
    case Some(raw) =>
      match RowsB(raw, h.height, Zeros(h.width * channels), channels)
      case Err(e) => Err(e)
      case Ok(rows) => Ok(Picture(h.width, h.height, channels, rows))
  }

  function DecodeA(data: Bytes, zlib: Zlib): Result<Picture, Error> {
    if !(SIGNATURE <= data) then Err(NotPng) else
    match WalkA(data[8..], None, [])
    case Err(e) => Err(e)
    case Ok(c) => PictureA(c, zlib)
  }

  function DecodeB(data: Bytes, zlib: Zlib): Result<Picture, Error> {
    if !(SIGNATURE <= data) then Err(NotPng) else
    match WalkB(data[8..], None, [])
    case Err(e) => Err(e)
    case Ok(c) => PictureB(c, zlib)
  }

  // The decoders as the programs run them: offsets into the file, bytearrays filled in place.

  /** The chunk fields, read at an offset into the file. */
  lemma ChunkAt(data: Bytes, offset: nat)
    requires offset + 4 <= |data|
    ensures var rest, length := Drop(data, offset), BigU32At(data, offset);
            && |rest| == |data| - offset
            && ChunkLength(rest) == length
            && ChunkKind(rest) == Classify(Slice(data, offset + 4, offset + 8))
            && ChunkPayload(rest) == Slice(data, offset + 8, offset + 8 + length)
            && AfterChunk(rest) == Drop(data, offset + 12 + length)
  {
    SliceOfDrop(data, offset, 4, 8);
    SliceOfDrop(data, offset, 8, 8 + BigU32At(data, offset));
    DropOfDrop(data, offset, 12 + BigU32At(data, offset));
  }

  lemma SliceOfDrop(data: Bytes, offset: nat, lo: nat, hi: nat)
    requires lo <= hi
    ensures Slice(Drop(data, offset), lo, hi) == Slice(data, offset + lo, offset + hi)
  {
  }

  lemma DropOfDrop(data: Bytes, offset: nat, n: nat)
    ensures Drop(Drop(data, offset), n) == Drop(data, offset + n)
  {
  }

  lemma DropLength(data: Bytes, offset: nat)
    ensures |Drop(data, offset)| == if offset <= |data| then |data| - offset else 0
  {
  }

  // The name, the payload and the offset of the next chunk, as the programs slice them.
  datatype Chunk = Chunk(kind: Kind, payload: Bytes, next: nat)

  function ReadChunk(data: Bytes, offset: nat): (c: Chunk)
    requires offset + 4 <= |data|
    ensures offset < c.next
  {
    var length := BigU32At(data, offset);
    Chunk(Classify(Slice(data, offset + 4, offset + 8)), Slice(data, offset + 8, offset + 8 + length),
          offset + 12 + length)
  }

  lemma UnfoldA(rest: Bytes, header: Option<Header>, idat: Bytes, kind: Kind, payload: Bytes, next: Bytes)
    requires 8 <= |rest| && kind == ChunkKind(rest) && payload == ChunkPayload(rest) && next == AfterChunk(rest)
    ensures WalkA(rest, header, idat)
            == var t := TakeA(kind, payload, header, idat);
               if t.Stop? then t.result else WalkA(next, t.header, t.idat)
  {
    hide ChunkKind;
    hide ChunkPayload;
    hide AfterChunk;
    hide TakeA;
  }

  /** One turn of walk A at an offset into the file. */
  lemma StepA(data: Bytes, offset: nat, header: Option<Header>, idat: Bytes)
    ensures WalkA(Drop(data, offset), header, idat)
            == if |data| < offset + 8 then Ok((header, idat)) else
               var c := ReadChunk(data, offset);
               var t := TakeA(c.kind, c.payload, header, idat);
               if t.Stop? then t.result else WalkA(Drop(data, c.next), t.header, t.idat)
  {
    DropLength(data, offset);
    if offset + 8 <= |data| {
      hide WalkA;
      hide TakeA;
      ChunkAt(data, offset);
      var c := ReadChunk(data, offset);
      UnfoldA(Drop(data, offset), header, idat, c.kind, c.payload, Drop(data, c.next));
    }
  }

  method CollectA(data: Bytes) returns (r: Result<Collected, Error>)
    requires 8 <= |data|
    ensures r == WalkA(data[8..], None, [])
  {
    assert data[8..] == Drop(data, 8);
    hide WalkA;
    hide Drop;
    hide ParseHeader;
    hide ReadChunk;
    var offset: nat, header: Option<Header>, idat: Bytes := 8, None, [];
    ghost var result := WalkA(Drop(data, 8), None, []);
    var ended := false;
    while !ended && offset + 8 <= |data|
      invariant ended ==> result == Ok((header, idat))
      invariant !ended ==> result == WalkA(Drop(data, offset), header, idat)
      decreases !ended, |data| - offset
    {
      StepA(data, offset, header, idat);
      var c := ReadChunk(data, offset);
      offset := c.next;
      match c.kind
      case Image =>
        if |c.payload| < 10 {
          return Err(StructError);
        }
        header := Some(ParseHeader(c.payload));
      case Data => idat := idat + c.payload;
      case End => ended := true;
      case Other =>
    }
    if !ended {
      StepA(data, offset, header, idat);
    }
    r := Ok((header, idat));
  }

  lemma UnfoldB(rest: Bytes, header: Option<Header>, idat: Bytes, kind: Kind, payload: Bytes, next: Bytes)
    requires 4 <= |rest| && kind == ChunkKind(rest) && payload == ChunkPayload(rest) && next == AfterChunk(rest)
    ensures WalkB(rest, header, idat)
            == var t := TakeB(kind, payload, header, idat);
               if t.Stop? then t.result else WalkB(next, t.header, t.idat)
  {
    hide ChunkKind;
    hide ChunkPayload;
    hide AfterChunk;
    hide TakeB;
  }

  /** One turn of walk B at an offset into the file. */
  lemma StepB(data: Bytes, offset: nat, header: Option<Header>, idat: Bytes)
    ensures WalkB(Drop(data, offset), header, idat)
            == if |data| <= offset then Ok((header, idat))
               else if |data| < offset + 4 then Err(StructError) else
               var c := ReadChunk(data, offset);
               var t := TakeB(c.kind, c.payload, header, idat);
               if t.Stop? then t.result else WalkB(Drop(data, c.next), t.header, t.idat)
  {
    DropLength(data, offset);
    if offset + 4 <= |data| {
      hide WalkB;
      hide TakeB;
      ChunkAt(data, offset);
      var c := ReadChunk(data, offset);
      UnfoldB(Drop(data, offset), header, idat, c.kind, c.payload, Drop(data, c.next));
    }
  }

  method CollectB(data: Bytes) returns (r: Result<Collected, Error>)
    requires 8 <= |data|
    ensures r == WalkB(data[8..], None, [])
  {
    assert data[8..] == Drop(data, 8);
    hide WalkB;
    hide Drop;
    hide ParseHeader;
    hide ReadChunk;
    var position: nat, header: Option<Header>, compressed: Bytes := 8, None, [];
    ghost var result := WalkB(Drop(data, 8), None, []);
    var ended := false;
    while !ended && position < |data|
      invariant ended ==> result == Ok((header, compressed))
      invariant !ended ==> result == WalkB(Drop(data, position), header, compressed)
      decreases !ended, |data| - position
    {
      StepB(data, position, header, compressed);
      if |data| < position + 4 {
        return Err(StructError);
      }
      var c := ReadChunk(data, position);
      position := c.next;
      match c.kind
      case Image =>
        if |c.payload| != 13 {
          return Err(StructError);
        }
        header := Some(ParseHeader(c.payload));
      case Data => compressed := compressed + c.payload;
      case End => ended := true;
      case Other =>
    }
    if !ended {
      StepB(data, position, header, compressed);
    }
    r := Ok((header, compressed));
  }

  /** The five branches of decoder A. */
  method ByteA(filter: Byte, x: int, left: int, up: int, upLeft: int) returns (byte: Option<Byte>)
    requires 0 <= x < 256
    ensures byte == if filter <= 4 then Some((x + Predict(filter, left, up, upLeft)) % 256) else None
  {
    if filter == 0 {
      byte := Some(x);
    } else if filter == 1 {
      byte := Some((x + left) % 256);
    } else if filter == 2 {
      byte := Some((x + up) % 256);
    } else if filter == 3 {
      byte := Some((x + (left + up) / 2) % 256);
    } else if filter == 4 {
      byte := Some((x + Paeth(left, up, upLeft)) % 256);
    } else {
      byte := None;
    }
  }

  /** The predictor that decoder B chooses. */
  method PredictorB(filter: Byte, left: int, above: int, upperLeft: int) returns (predictor: Option<int>)
    ensures predictor == if filter <= 4 then Some(Predict(filter, left, above, upperLeft)) else None
  {
    if filter == 0 {
      predictor := Some(0);
    } else if filter == 1 {
      predictor := Some(left);
    } else if filter == 2 {
      predictor := Some(above);
    } else if filter == 3 {
      predictor := Some((left + above) / 2);
    } else if filter == 4 {
      PaethIsFirstNearest(left, above, upperLeft);
      predictor := Some(PaethByIndex(left, above, upperLeft));
    } else {
      predictor := None;
    }
  }

  /** The inner loop of decoder A: raises at the first byte that is missing or whose filter is unknown. */
  method FillRowA(filter: Byte, scan: Bytes, prev: array<Byte>, channels: nat, recon: array<Byte>)
    returns (error: Option<Error>)
    requires 0 < channels && prev != recon && prev.Length == recon.Length && |scan| <= recon.Length
    modifies recon
    ensures match RowA(filter, scan, prev[..], channels, recon.Length)
            case Err(e) => error == Some(e)
            case Ok(row) => error == None && recon[..] == row
  {
    hide Predict;
    for i := 0 to recon.Length
      invariant i <= |scan| && (0 < i ==> filter <= 4)
      invariant recon[..i] == Unfilter(filter, scan, prev[..], channels, i)
    {
      var left: int := if channels <= i then recon[i - channels] else 0;
      var up: int := prev[i];
      var upLeft: int := if channels <= i then prev[i - channels] else 0;
      assert left == Behind(recon[..i], i, channels) && upLeft == Behind(prev[..], i, channels);
      if |scan| <= i {
        return Some(IndexError);
      }
      var byte := ByteA(filter, scan[i], left, up, upLeft);
      if byte.None? {
        return Some(UnknownFilter);
      }
      recon[i] := byte.value;
      assert recon[..i + 1] == recon[..i] + [recon[i]];
    }
    assert recon[..recon.Length] == recon[..];
    error := None;
  }

  /** The inner loop of decoder B: runs over the scan bytes that are there, and leaves zeros behind them. */
  method FillRowB(filter: Byte, scan: Bytes, previous: array<Byte>, channels: nat, row: array<Byte>)
    returns (error: Option<Error>)
    requires 0 < channels && previous != row && previous.Length == row.Length && |scan| <= row.Length
    requires forall i :: 0 <= i < row.Length ==> row[i] == 0
    modifies row
    ensures match RowB(filter, scan, previous[..], channels, row.Length)
            case Err(e) => error == Some(e)
            case Ok(r) => error == None && row[..] == r
  {
    hide Predict;
    for index := 0 to |scan|
      invariant 0 < index ==> filter <= 4
      invariant row[..index] == Unfilter(filter, scan, previous[..], channels, index)
      invariant forall i :: index <= i < row.Length ==> row[i] == 0
    {
      var value: int := scan[index];
      var left: int := if channels <= index then row[index - channels] else 0;
      var above: int := previous[index];
      var upperLeft: int := if channels <= index then previous[index - channels] else 0;
      assert left == Behind(row[..index], index, channels) && upperLeft == Behind(previous[..], index, channels);
      var predictor := PredictorB(filter, left, above, upperLeft);
      if predictor.None? {
        return Some(UnknownFilter);
      }
      row[index] := (value + predictor.value) % 256;
      assert row[..index + 1] == row[..index] + [row[index]];
    }
    assert row[..] == row[..|scan|] + row[|scan|..];
    assert row[|scan|..] == Zeros(row.Length - |scan|);
    error := None;
  }

  lemma UnfoldRowsA(raw: Bytes, height: nat, previous: Bytes, channels: nat, row: Result<Bytes, Error>, rest: Bytes)
    requires 0 < channels && 0 < height && raw != []
    requires row == RowA(raw[0], Slice(raw, 1, 1 + |previous|), previous, channels, |previous|)
    requires rest == Drop(raw, 1 + |previous|)
    ensures RowsA(raw, height, previous, channels)
            == if row.Err? then Err(row.error)
               else Prepend([row.value], RowsA(rest, height - 1, row.value, channels))
  {
    hide RowA;
    hide Slice;
    hide Drop;
  }

  /** One turn of row loop A at an offset into the raw bytes. */
  lemma NextRowA(raw: Bytes, at: nat, height: nat, previous: Bytes, channels: nat)
    requires 0 < channels && 0 < height
    ensures RowsA(Drop(raw, at), height, previous, channels)
            == if |raw| <= at then Err(IndexError) else
               var row := RowA(raw[at], Slice(raw, at + 1, at + 1 + |previous|), previous, channels, |previous|);
               if row.Err? then Err(row.error)
               else Prepend([row.value], RowsA(Drop(raw, at + 1 + |previous|), height - 1, row.value, channels))
  {
    DropLength(raw, at);
    if at < |raw| {
      hide RowA;
      hide RowsA;
      SliceOfDrop(raw, at, 1, 1 + |previous|);
      DropOfDrop(raw, at, 1 + |previous|);
      assert Drop(raw, at)[0] == raw[at];
      UnfoldRowsA(Drop(raw, at), height, previous, channels,
                  RowA(raw[at], Slice(raw, at + 1, at + 1 + |previous|), previous, channels, |previous|),
                  Drop(raw, at + 1 + |previous|));
    }
  }

  /** The loop over rows of decoder A. */
  method ReadRowsA(raw: Bytes, width: nat, height: nat, channels: nat) returns (r: Result<seq<Bytes>, Error>)
    requires 0 < channels
    ensures r == RowsA(raw, height, Zeros(width * channels), channels)
  {
    hide RowA;
    hide RowsA;
    var n := width * channels;
    var stride := 1 + n;
    var prev := new Byte[n](_ => 0);
    var rows: seq<Bytes> := [];
    assert prev[..] == Zeros(n);
    assert Drop(raw, 0) == raw;
    NothingPrepended(RowsA(raw, height, Zeros(n), channels));
    for y := 0 to height
      invariant prev.Length == n && fresh(prev)
      invariant RowsA(raw, height, Zeros(n), channels)
                == Prepend(rows, RowsA(Drop(raw, y * stride), height - y, prev[..], channels))
    {
      assert (y + 1) * stride == y * stride + stride;
      NextRowA(raw, y * stride, height - y, prev[..], channels);
      if |raw| <= y * stride {
        return Err(IndexError);
      }
      var filter := raw[y * stride];
      var scan := Slice(raw, y * stride + 1, (y + 1) * stride);
      var recon := new Byte[n];
      var error := FillRowA(filter, scan, prev, channels, recon);
      if error.Some? {
        return Err(error.value);
      }
      PrependRow(rows, recon[..], RowsA(Drop(raw, (y + 1) * stride), height - (y + 1), recon[..], channels));
      prev := recon;
      rows := rows + [recon[..]];
    }
    NoRowsLeft(Drop(raw, height * stride), prev[..], channels);
    r := Ok(rows);
  }

  function Prepend(rows: seq<Bytes>, r: Result<seq<Bytes>, Error>): Result<seq<Bytes>, Error> {
    match r case Err(e) => Err(e) case Ok(more) => Ok(rows + more)
  }

  lemma NoRowsLeft(raw: Bytes, previous: Bytes, channels: nat)
    requires 0 < channels
    ensures RowsA(raw, 0, previous, channels) == RowsB(raw, 0, previous, channels) == Ok([])
    ensures forall rows: seq<Bytes> :: rows + [] == rows
  {
  }

  lemma NothingPrepended(r: Result<seq<Bytes>, Error>)
    ensures Prepend([], r) == r
  {
    if r.Ok? {
      assert [] + r.value == r.value;
    }
  }

  lemma PrependRow(rows: seq<Bytes>, row: Bytes, r: Result<seq<Bytes>, Error>)
    ensures Prepend(rows, Prepend([row], r)) == Prepend(rows + [row], r)
  {
    if r.Ok? {
      assert rows + ([row] + r.value) == rows + [row] + r.value;
    }
  }

  lemma UnfoldRowsB(raw: Bytes, height: nat, previous: Bytes, channels: nat, row: Result<Bytes, Error>, rest: Bytes)
    requires 0 < channels && 0 < height && raw != []
    requires row == RowB(raw[0], Slice(raw, 1, 1 + |previous|), previous, channels, |previous|)
    requires rest == Drop(raw, 1 + |previous|)
    ensures RowsB(raw, height, previous, channels)
            == if row.Err? then Err(row.error)
               else Prepend([row.value], RowsB(rest, height - 1, row.value, channels))
  {
    hide RowB;
    hide Slice;
    hide Drop;
  }

  /** One turn of row loop B at an offset into the raw bytes. */
  lemma NextRowB(raw: Bytes, at: nat, height: nat, previous: Bytes, channels: nat)
    requires 0 < channels && 0 < height
    ensures RowsB(Drop(raw, at), height, previous, channels)
            == if |raw| <= at then Err(IndexError) else
               var row := RowB(raw[at], Slice(raw, at + 1, at + 1 + |previous|), previous, channels, |previous|);
               if row.Err? then Err(row.error)
               else Prepend([row.value], RowsB(Drop(raw, at + 1 + |previous|), height - 1, row.value, channels))
  {
    DropLength(raw, at);
    if at < |raw| {
      hide RowB;
      hide RowsB;
      SliceOfDrop(raw, at, 1, 1 + |previous|);
      DropOfDrop(raw, at, 1 + |previous|);
      assert Drop(raw, at)[0] == raw[at];
      UnfoldRowsB(Drop(raw, at), height, previous, channels,
                  RowB(raw[at], Slice(raw, at + 1, at + 1 + |previous|), previous, channels, |previous|),
                  Drop(raw, at + 1 + |previous|));
    }
  }

  /** The loop over rows of decoder B. */
  method ReadRowsB(raw: Bytes, width: nat, height: nat, channels: nat) returns (r: Result<seq<Bytes>, Error>)
    requires 0 < channels
    ensures r == RowsB(raw, height, Zeros(width * channels), channels)
  {
    hide RowB;
    hide RowsB;
    var stride := width * channels;
    var previous := new Byte[stride](_ => 0);
    var rows: seq<Bytes> := [];
    var offset: nat := 0;
    assert previous[..] == Zeros(stride);
    assert Drop(raw, 0) == raw;
    NothingPrepended(RowsB(raw, height, Zeros(stride), channels));
    for y := 0 to height
      invariant previous.Length == stride && fresh(previous)
      invariant RowsB(raw, height, Zeros(stride), channels)
                == Prepend(rows, RowsB(Drop(raw, offset), height - y, previous[..], channels))
    {
      NextRowB(raw, offset, height - y, previous[..], channels);
      if |raw| <= offset {
        return Err(IndexError);
      }
      var filter := raw[offset];
      var encoded := Slice(raw, offset + 1, offset + 1 + stride);
      var row := new Byte[stride](_ => 0);
      var error := FillRowB(filter, encoded, previous, channels, row);
      if error.Some? {
        return Err(error.value);
      }
      offset := offset + stride + 1;
      PrependRow(rows, row[..], RowsB(Drop(raw, offset), height - (y + 1), row[..], channels));
      previous := row;
      rows := rows + [row[..]];
    }
    NoRowsLeft(Drop(raw, offset), previous[..], channels);
    r := Ok(rows);
  }

  method ReadPngA(data: Bytes, zlib: Zlib) returns (r: Result<Picture, Error>)
    ensures r == DecodeA(data, zlib)
  {
    if !(SIGNATURE <= data) {
      return Err(NotPng);
    }
    var collected := CollectA(data);
    if collected.Err? {
      return Err(collected.error);
    }
    var (header, idat) := collected.value;
    if header.None? || idat == [] || header.value.depth != 8 || !(header.value.color in {2, 6}) {
      return Err(Unsupported);
    }
    var h, channels := header.value, Channels(header.value.color);
    var raw := zlib(idat);
    if raw.None? {
      return Err(ZlibError);
    }
    var rows := ReadRowsA(raw.value, h.width, h.height, channels);
    r := match rows case Err(e) => Err(e) case Ok(rs) => Ok(Picture(h.width, h.height, channels, rs));
  }

  method ReadPngB(data: Bytes, zlib: Zlib) returns (r: Result<Picture, Error>)
    ensures r == DecodeB(data, zlib)
  {
    if !(SIGNATURE <= data) {
      return Err(NotPng);
    }
    var collected := CollectB(data);
    if collected.Err? {
      return Err(collected.error);
    }
    var (header, compressed) := collected.value;
    if header.None? || header.value.depth != 8 || !(header.value.color in {2, 6}) || header.value.interlace != 0 {
      return Err(Unsupported);
    }
    var h, channels := header.value, Channels(header.value.color);
    var raw := zlib(compressed);
    if raw.None? {
      return Err(ZlibError);
    }
    var rows := ReadRowsB(raw.value, h.width, h.height, channels);
    r := match rows case Err(e) => Err(e) case Ok(rs) => Ok(Picture(h.width, h.height, channels, rs));
  }
}
