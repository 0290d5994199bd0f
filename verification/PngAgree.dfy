/** How the two decoders relate on arbitrary bytes: the same picture whenever both accept, and exactly when they do. */
module PngAgree {
  import opened Octets
  import opened PngFilter
  import opened PngReader

  lemma RowAgrees(filter: Byte, scan: Bytes, previous: Bytes, channels: nat, n: nat)
    requires 0 < channels && |previous| == n && |scan| <= n
    ensures RowA(filter, scan, previous, channels, n).Ok? ==>
              RowB(filter, scan, previous, channels, n) == RowA(filter, scan, previous, channels, n)
    ensures RowB(filter, scan, previous, channels, n).Ok? ==>
              (RowA(filter, scan, previous, channels, n).Ok? <==> |scan| == n)
  {
    if |scan| == n {
      assert Unfilter(filter, scan, previous, channels, n) + Zeros(0) == Unfilter(filter, scan, previous, channels, n);
    }
  }

  lemma {:induction false} RowsAgree(raw: Bytes, height: nat, previous: Bytes, channels: nat)
    requires 0 < channels
    ensures RowsA(raw, height, previous, channels).Ok? ==>
              RowsB(raw, height, previous, channels) == RowsA(raw, height, previous, channels)
    decreases height
  {
    hide RowA;
    hide RowB;
    hide Unfilter;
    hide Zeros;
    if height > 0 && raw != [] {
      var n := |previous|;
      RowAgrees(raw[0], Slice(raw, 1, 1 + n), previous, channels, n);
      var row := RowA(raw[0], Slice(raw, 1, 1 + n), previous, channels, n);
      if row.Ok? {
        RowsAgree(Drop(raw, 1 + n), height - 1, row.value, channels);
      }
    }
  }

  /** Decoder A needs the raw bytes of every row; decoder B makes up the missing end of the last one. */
  lemma {:induction false} RowsComplete(raw: Bytes, height: nat, previous: Bytes, channels: nat)
    requires 0 < channels && RowsB(raw, height, previous, channels).Ok?
    ensures RowsA(raw, height, previous, channels).Ok? <==> ImageSize(height, |previous|) <= |raw|
    decreases height
  {
    hide RowA;
    hide RowB;
    hide Unfilter;
    hide Zeros;
    if height > 0 {
      var n := |previous|;
      var scan, rest := Slice(raw, 1, 1 + n), Drop(raw, 1 + n);
      RowAgrees(raw[0], scan, previous, channels, n);
      var row := RowB(raw[0], scan, previous, channels, n).value;
      RowsComplete(rest, height - 1, row, channels);
      if 1 + n <= |raw| {
        assert |scan| == n && |rest| == |raw| - (1 + n);
      }
    }
  }

  /** A walk that decoder B completes is one that decoder A completes alike. */
  lemma {:induction false} WalkAgrees(rest: Bytes, header: Option<Header>, idat: Bytes)
    requires WalkB(rest, header, idat).Ok?
    ensures WalkA(rest, header, idat) == WalkB(rest, header, idat)
    decreases |rest|
  {
    hide Classify;
    hide ParseHeader;
    hide ChunkPayload;
    if 8 <= |rest| {
      var t := TakeB(ChunkKind(rest), ChunkPayload(rest), header, idat);
      if t.Go? {
        WalkAgrees(AfterChunk(rest), t.header, t.idat);
      }
    } else if 4 <= |rest| {
      ShortChunk(rest);
    }
  }

  /** A chunk that is cut off inside its name is skipped, and nothing follows it. */
  lemma ShortChunk(rest: Bytes)
    requires 4 <= |rest| < 8
    ensures ChunkKind(rest) == Other && AfterChunk(rest) == []
  {
    assert |Slice(rest, 4, 8)| < 4;
  }

  /** What decoder B asks of the walk beyond decoder A: 13 byte headers, and no stray one to three bytes. */
  predicate StrictWalk(rest: Bytes)
    decreases |rest|
  {
    if rest == [] then true
    else if |rest| < 4 then false
    else if |rest| < 8 then true
    else
      match ChunkKind(rest)
      case Image => |ChunkPayload(rest)| == 13 && StrictWalk(AfterChunk(rest))
      case Data => StrictWalk(AfterChunk(rest))
      case End => true
      case Other => StrictWalk(AfterChunk(rest))
  }

  lemma {:induction false} StrictWalkExact(rest: Bytes, header: Option<Header>, idat: Bytes)
    ensures WalkB(rest, header, idat).Ok? <==> WalkA(rest, header, idat).Ok? && StrictWalk(rest)
    decreases |rest|
  {
    hide Classify;
    hide ParseHeader;
    hide ChunkPayload;
    if 8 <= |rest| {
      var tA := TakeA(ChunkKind(rest), ChunkPayload(rest), header, idat);
      if tA.Go? {
        StrictWalkExact(AfterChunk(rest), tA.header, tA.idat);
      }
    } else if 4 <= |rest| {
      ShortChunk(rest);
    }
  }

  /** On any input whatsoever: two accepted decodings are the same picture. */
  lemma BothAgree(data: Bytes, zlib: Zlib)
    requires DecodeA(data, zlib).Ok? && DecodeB(data, zlib).Ok?
    ensures DecodeA(data, zlib) == DecodeB(data, zlib)
  {
    WalkAgrees(data[8..], None, []);
    var (header, idat) := WalkB(data[8..], None, []).value;
    var channels := Channels(header.value.color);
    RowsAgree(zlib(idat).value, header.value.height, Zeros(header.value.width * channels), channels);
  }

  /** Among the inputs that decoder A accepts, decoder B accepts exactly the strict non-interlaced ones. */
  lemma WhenBAccepts(data: Bytes, zlib: Zlib)
    requires DecodeA(data, zlib).Ok?
    ensures DecodeB(data, zlib).Ok?
            <==> StrictWalk(data[8..]) && WalkA(data[8..], None, []).value.0.value.interlace == 0
  {
    StrictWalkExact(data[8..], None, []);
    if StrictWalk(data[8..]) {
      WalkAgrees(data[8..], None, []);
      var (header, idat) := WalkB(data[8..], None, []).value;
      var channels := Channels(header.value.color);
      RowsAgree(zlib(idat).value, header.value.height, Zeros(header.value.width * channels), channels);
    }
  }

  /** Among the inputs that decoder B accepts, decoder A accepts exactly those with data for every row. */
  lemma WhenAAccepts(data: Bytes, zlib: Zlib)
    requires DecodeB(data, zlib).Ok?
    ensures var (header, idat) := WalkB(data[8..], None, []).value;
            var n := header.value.width * Channels(header.value.color);
            DecodeA(data, zlib).Ok? <==> idat != [] && header.value.height * (1 + n) <= |zlib(idat).value|
  {
    WalkAgrees(data[8..], None, []);
    var (header, idat) := WalkB(data[8..], None, []).value;
    var channels := Channels(header.value.color);
    RowsComplete(zlib(idat).value, header.value.height, Zeros(header.value.width * channels), channels);
    ImageSizeIsProduct(header.value.height, header.value.width * channels);
  }

  // Filtering and the row loops undo each other.

  /** Unfiltering inverts filtering: any image, any channel count, any choice of the five filter types. */
  lemma {:induction false} RowsInvertFiltering(filters: seq<Byte>, rows: seq<Bytes>, previous: Bytes, channels: nat)
    requires 0 < channels && |filters| == |rows|
    requires forall y :: 0 <= y < |rows| ==> |rows[y]| == |previous| && filters[y] <= 4
    ensures RowsA(FilterImage(filters, rows, previous, channels), |rows|, previous, channels) == Ok(rows)
    ensures RowsB(FilterImage(filters, rows, previous, channels), |rows|, previous, channels) == Ok(rows)
  {
    var raw := FilterImage(filters, rows, previous, channels);
    if rows != [] {
      var n := |previous|;
      var scan := Filter(filters[0], rows[0], previous, channels);
      var rest := FilterImage(filters[1..], rows[1..], rows[0], channels);
      hide Filter;
      hide Unfilter;
      assert raw == [filters[0]] + scan + rest;
      assert raw[1..1 + n] == scan && raw[1 + n..] == rest;
      UnfilterFilter(filters[0], rows[0], previous, channels, n);
      assert rows[0][..n] == rows[0];
      UnfoldRowsA(raw, |rows|, previous, channels, Ok(rows[0]), rest);
      hide RowsA;
      RowsInvertFiltering(filters[1..], rows[1..], rows[0], channels);
      assert rows == [rows[0]] + rows[1..];
    }
    RowsAgree(raw, |rows|, previous, channels);
  }

  lemma {:induction false} RowsShape(raw: Bytes, height: nat, previous: Bytes, channels: nat)
    requires 0 < channels && RowsA(raw, height, previous, channels).Ok?
    ensures var rows := RowsA(raw, height, previous, channels).value;
            |rows| == height && forall y :: 0 <= y < height ==> |rows[y]| == |previous|
    decreases height
  {
    if height > 0 {
      var n := |previous|;
      var scan, rest := Slice(raw, 1, 1 + n), Drop(raw, 1 + n);
      UnfoldRowsA(raw, height, previous, channels, RowA(raw[0], scan, previous, channels, n), rest);
      var row := RowA(raw[0], scan, previous, channels, n).value;
      hide RowA;
      hide RowsA;
      hide Slice;
      hide Drop;
      RowsShape(rest, height - 1, row, channels);
    }
  }

  lemma FullRow(filter: Byte, scan: Bytes, previous: Bytes, channels: nat)
    requires 0 < channels && |scan| == |previous| && RowA(filter, scan, previous, channels, |previous|).Ok?
    ensures Filter(filter, RowA(filter, scan, previous, channels, |previous|).value, previous, channels) == scan
  {
    hide Filter;
    if scan == [] {
      assert Filter(filter, [], previous, channels) == [];
    } else {
      FilterUnfilter(filter, scan, previous, channels);
    }
  }

  lemma FirstAccepted(raw: Bytes, height: nat, previous: Bytes, channels: nat) returns (row: Bytes)
    requires 0 < channels && 0 < height && 1 + |previous| <= |raw| && RowsA(raw, height, previous, channels).Ok?
    ensures |row| == |previous| && Filter(raw[0], row, previous, channels) == raw[1..1 + |previous|]
    ensures var rest := RowsA(raw[1 + |previous|..], height - 1, row, channels);
            rest.Ok? && RowsA(raw, height, previous, channels).value == [row] + rest.value
  {
    var n := |previous|;
    var first := RowA(raw[0], raw[1..1 + n], previous, channels, n);
    UnfoldRowsA(raw, height, previous, channels, first, raw[1 + n..]);
    hide RowsA;
    FullRow(raw[0], raw[1..1 + n], previous, channels);
    hide RowA;
    row := first.value;
  }

  /** Filtering inverts unfiltering: accepted rows, filtered by their own filter types, are the raw bytes. */
  lemma {:induction false} FilteringInvertsRows(raw: Bytes, height: nat, previous: Bytes, channels: nat)
    requires 0 < channels && |raw| == ImageSize(height, |previous|) && RowsA(raw, height, previous, channels).Ok?
    ensures var rows := RowsA(raw, height, previous, channels).value;
            && |rows| == height && (forall y :: 0 <= y < height ==> |rows[y]| == |previous|)
            && FilterImage(FilterBytes(raw, height, |previous|), rows, previous, channels) == raw
    decreases height
  {
    RowsShape(raw, height, previous, channels);
    if height > 0 {
      hide RowsA;
      hide Filter;
      hide FilterImage;
      hide FilterBytes;
      var row := FirstAccepted(raw, height, previous, channels);
      var rest := raw[1 + |previous|..];
      FilteringInvertsRows(rest, height - 1, row, channels);
      PrependFiltered(raw, height, previous, channels, row, RowsA(rest, height - 1, row, channels).value);
    }
  }

  lemma PrependFiltered(raw: Bytes, height: nat, previous: Bytes, channels: nat, row: Bytes, rows: seq<Bytes>)
    requires 0 < channels && 0 < height && |raw| == ImageSize(height, |previous|) && |row| == |previous|
    requires |rows| == height - 1 && forall y :: 0 <= y < |rows| ==> |rows[y]| == |previous|
    requires var n := |previous|;
             && Filter(raw[0], row, previous, channels) == raw[1..1 + n]
             && FilterImage(FilterBytes(raw[1 + n..], height - 1, n), rows, row, channels) == raw[1 + n..]
    ensures FilterImage(FilterBytes(raw, height, |previous|), [row] + rows, previous, channels) == raw
  {
    hide Filter;
    var n := |previous|;
    var filters, all := FilterBytes(raw[n + 1..], height - 1, n), [row] + rows;
    assert FilterBytes(raw, height, n) == [raw[0]] + filters;
    assert ([raw[0]] + filters)[1..] == filters && all[1..] == rows;
    assert raw == [raw[0]] + raw[1..1 + n] + raw[1 + n..];
  }

  // What the pixels are.

  /** Row A: every byte is its scan byte plus what its filter type says. */
  lemma RowAMeans(filter: Byte, scan: Bytes, previous: Bytes, channels: nat, i: nat)
    requires 0 < channels && |scan| <= |previous| && i < |previous|
    requires RowA(filter, scan, previous, channels, |previous|).Ok?
    ensures filter <= 4 && |scan| == |previous|
    ensures Reconstructs(filter, scan, previous, channels, RowA(filter, scan, previous, channels, |previous|).value, i)
  {
    UnfilterMeans(filter, scan, previous, channels, i);
    hide Reconstructs;
  }

  /** Row B: the same, as far as the scan line goes, and zeros behind it. */
  lemma RowBMeans(filter: Byte, scan: Bytes, previous: Bytes, channels: nat, i: nat)
    requires 0 < channels && |scan| <= |previous| && i < |previous|
    requires RowB(filter, scan, previous, channels, |previous|).Ok?
    ensures var row := RowB(filter, scan, previous, channels, |previous|).value;
            && (i < |scan| ==> filter <= 4 && Reconstructs(filter, scan, previous, channels, row, i))
            && (|scan| <= i ==> row[i] == 0)
  {
    var short, row := Unfilter(filter, scan, previous, channels, |scan|),
                      RowB(filter, scan, previous, channels, |previous|).value;
    hide Unfilter;
    if i < |scan| {
      UnfilterMeans(filter, scan, previous, channels, i);
      assert row[i] == short[i] && (channels <= i ==> row[i - channels] == short[i - channels]);
    }
  }

  /** The row above row y; above the first one stands `previous`. */
  function Above(rows: seq<Bytes>, y: nat, previous: Bytes): Bytes {
    if 0 < y <= |rows| then rows[y - 1] else previous
  }

  /** Where row y starts in the raw bytes: every row takes a filter byte and n bytes. */
  function RowStart(y: nat, n: nat): nat {
    y * (1 + n)
  }

  /**
   Byte i of row y is reconstructed from the raw byte in its place, by the filter type in front of its row, from the
   row above.
   */
  ghost predicate ByteIsRight(raw: Bytes, rows: seq<Bytes>, previous: Bytes, channels: nat, y: nat, i: nat) {
    var n, at, above := |previous|, RowStart(y, |previous|), Above(rows, y, previous);
    && y < |rows| && i < n && |rows[y]| == n && |above| == n && at + 1 + n <= |raw| && raw[at] <= 4
    && Reconstructs(raw[at], raw[at + 1..at + 1 + n], above, channels, rows[y], i)
  }

  lemma {:induction false} RowsAMean(raw: Bytes, height: nat, previous: Bytes, channels: nat, y: nat, i: nat)
    requires 0 < channels && RowsA(raw, height, previous, channels).Ok? && y < height && i < |previous|
    ensures ByteIsRight(raw, RowsA(raw, height, previous, channels).value, previous, channels, y, i)
    decreases height
  {
    hide RowA;
    hide RowsA;
    hide Reconstructs;
    var n := |previous|;
    RowsShape(raw, height, previous, channels);
    var row := FirstRowA(raw, height, previous, channels, i);
    var rest := RowsA(raw[1 + n..], height - 1, row, channels).value;
    if 0 < y {
      RowsAMean(raw[1 + n..], height - 1, row, channels, y - 1, i);
      NextStart(raw, y, n);
      assert Above([row] + rest, y, previous) == Above(rest, y - 1, row);
    } else {
      assert RowStart(0, n) == 0;
    }
  }

  lemma NextStart(raw: Bytes, y: nat, n: nat)
    requires 0 < y && 1 + n <= |raw| && RowStart(y - 1, n) + 1 + n <= |raw[1 + n..]|
    ensures var at, before := RowStart(y, n), RowStart(y - 1, n);
            && at == before + 1 + n && at + 1 + n <= |raw| && raw[at] == raw[1 + n..][before]
            && raw[at + 1..at + 1 + n] == raw[1 + n..][before + 1..before + 1 + n]
  {
    assert y * (1 + n) == (y - 1) * (1 + n) + (1 + n);
    var at, before := RowStart(y, n), RowStart(y - 1, n);
    var here, there := raw[at + 1..at + 1 + n], raw[1 + n..][before + 1..before + 1 + n];
    forall k | 0 <= k < n ensures here[k] == there[k] {
      assert there[k] == raw[1 + n..][before + 1 + k];
    }
  }

  lemma FirstRowA(raw: Bytes, height: nat, previous: Bytes, channels: nat, i: nat) returns (row: Bytes)
    requires 0 < channels && 0 < height && RowsA(raw, height, previous, channels).Ok? && i < |previous|
    ensures var n := |previous|;
            && 1 + n <= |raw| && |row| == n && raw[0] <= 4
            && Reconstructs(raw[0], raw[1..1 + n], previous, channels, row, i)
            && RowsA(raw[1 + n..], height - 1, row, channels).Ok?
            && RowsA(raw, height, previous, channels).value
               == [row] + RowsA(raw[1 + n..], height - 1, row, channels).value
  {
    hide RowA;
    hide Reconstructs;
    var n := |previous|;
    var scan, rest := Slice(raw, 1, 1 + n), Drop(raw, 1 + n);
    UnfoldRowsA(raw, height, previous, channels, RowA(raw[0], scan, previous, channels, n), rest);
    hide RowsA;
    RowAMeans(raw[0], scan, previous, channels, i);
    assert scan == raw[1..1 + n] && rest == raw[1 + n..];
    row := RowA(raw[0], scan, previous, channels, n).value;
  }

  /**
   What decoder A makes of a file, byte by byte: the size and the channels are those of the header, and every byte of
   the picture is reconstructed from the decompressed bytes. By BothAgree the same holds for B where both accept.
   */
  lemma DecodedBytes(data: Bytes, zlib: Zlib, y: nat, i: nat)
    requires DecodeA(data, zlib).Ok?
    requires y < DecodeA(data, zlib).value.height
    requires i < DecodeA(data, zlib).value.width * DecodeA(data, zlib).value.channels
    ensures var p := DecodeA(data, zlib).value;
            var (header, idat) := WalkA(data[8..], None, []).value;
            && p.width == header.value.width && p.height == header.value.height && header.value.depth == 8
            && ((header.value.color == 2 && p.channels == 3) || (header.value.color == 6 && p.channels == 4))
            && |p.rows| == p.height
            && ByteIsRight(zlib(idat).value, p.rows, Zeros(p.width * p.channels), p.channels, y, i)
  {
    hide RowsA;
    hide WalkA;
    hide Zeros;
    hide ByteIsRight;
    var p := DecodeA(data, zlib).value;
    var (header, idat) := WalkA(data[8..], None, []).value;
    var raw, n := zlib(idat).value, p.width * p.channels;
    ZerosLength(n);
    RowsShape(raw, p.height, Zeros(n), p.channels);
    RowsAMean(raw, p.height, Zeros(n), p.channels, y, i);
  }

  lemma ZerosLength(n: nat)
    ensures |Zeros(n)| == n && forall i :: 0 <= i < n ==> Zeros(n)[i] == 0
  {
  }

  /** Where the header fields are. */
  lemma HeaderFields(payload: Bytes)
    requires |payload| == 13
    ensures var h, b := ParseHeader(payload), payload;
            var w0: int, w1: int, w2: int, w3: int := b[0], b[1], b[2], b[3];
            var h0: int, h1: int, h2: int, h3: int := b[4], b[5], b[6], b[7];
            && h.width == ((w0 * 256 + w1) * 256 + w2) * 256 + w3
            && h.height == ((h0 * 256 + h1) * 256 + h2) * 256 + h3
            && h.depth == b[8] && h.color == b[9] && h.interlace == b[12]
  {
  }
}
