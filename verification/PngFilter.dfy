/**
 PNG row filters: section 6 of RFC 2083, and the two unfiltering loops of
 examples/chrome/assert-example-page.py and examples/glx-probe/assert-screenshot.py.
 The number of channels is the distance between a byte and its left neighbour.
 */
module PngFilter {
  import opened Octets
  import opened Arith

  function Abs(x: int): nat {
    if x < 0 then -x else x
  }

  // The nested-if predictor.
  function Paeth(a: int, b: int, c: int): int {
    var p := a + b - c;
    var pa, pb, pc := Abs(p - a), Abs(p - b), Abs(p - c);
    if pa <= pb && pa <= pc then a
    else if pb <= pc then b
    else c
  }

  function MinOf(s: seq<int>): int
    requires s != []
  {
    if |s| == 1 then s[0] else Min(s[0], MinOf(s[1..]))
  }

  function IndexOf(s: seq<int>, x: int): nat
    requires x in s
  {
    if s[0] == x then 0 else 1 + IndexOf(s[1..], x)
  }

  lemma {:induction false} MinOfIn(s: seq<int>)
    requires s != []
    ensures MinOf(s) in s && forall i :: 0 <= i < |s| ==> MinOf(s) <= s[i]
  {
    if |s| > 1 {
      MinOfIn(s[1..]);
    }
  }

  // The predictor that takes the first index of the smallest distance.
  function PaethByIndex(a: int, b: int, c: int): int {
    var e := a + b - c;
    var distances := [Abs(e - a), Abs(e - b), Abs(e - c)];
    MinOfIn(distances);
    var i := IndexOf(distances, MinOf(distances));
    if i == 0 then a else if i == 1 then b else c
  }

  /** The first index of the minimum of three. */
  lemma FirstOfThree(x: int, y: int, z: int)
    ensures MinOf([x, y, z]) in [x, y, z]
    ensures IndexOf([x, y, z], MinOf([x, y, z])) == if x <= y && x <= z then 0 else if y <= z then 1 else 2
  {
    var d := [x, y, z];
    MinOfIn(d);
    assert d[1..] == [y, z] && [y, z][1..] == [z];
    assert MinOf([y, z]) == Min(y, z) && MinOf(d) == Min(x, Min(y, z));
    assert IndexOf(d, MinOf(d)) == if x == MinOf(d) then 0 else 1 + IndexOf([y, z], MinOf(d));
  }

  /** Both predictors pick the nearest of left, above, upper left to a + b - c; the first of them on a tie. */
  lemma PaethIsFirstNearest(a: int, b: int, c: int)
    ensures var r, p := Paeth(a, b, c), a + b - c;
            && r in [a, b, c]
            && (forall x :: x in [a, b, c] ==> Abs(p - r) <= Abs(p - x))
            && (Abs(p - a) == Abs(p - r) ==> r == a)
            && (Abs(p - b) == Abs(p - r) && Abs(p - a) != Abs(p - r) ==> r == b)
    ensures PaethByIndex(a, b, c) == Paeth(a, b, c)
  {
    var e := a + b - c;
    FirstOfThree(Abs(e - a), Abs(e - b), Abs(e - c));
  }

  /** The prediction that a filter type adds to a byte. */
  function Predict(filter: Byte, left: int, up: int, upLeft: int): int {
    match filter
    case 0 => 0
    case 1 => left
    case 2 => up
    case 3 => (left + up) / 2
    case _ => Paeth(left, up, upLeft)
  }

  function Behind(row: Bytes, i: nat, channels: nat): int
    requires 0 < channels && i - channels < |row|
  {
    if channels <= i then row[i - channels] else 0
  }

  /** The prediction for byte i of a row whose first i bytes are known. */
  function PredictAt(filter: Byte, row: Bytes, previous: Bytes, i: nat, channels: nat): int
    requires 0 < channels && i <= |row| && i < |previous|
  {
    Predict(filter, Behind(row, i, channels), previous[i], Behind(previous, i, channels))
  }

  /** RFC 2083 section 6: each byte minus its prediction, modulo 256. */
  function Filter(filter: Byte, row: Bytes, previous: Bytes, channels: nat): (scan: Bytes)
    requires 0 < channels && |row| == |previous|
    ensures |scan| == |row|
  {
    seq(|row|, i requires 0 <= i < |row| =>
      var x: int := row[i];
      (x - PredictAt(filter, row, previous, i, channels)) % 256)
  }

  /** The first n bytes of the row that a scan line stands for. */
  function Unfilter(filter: Byte, scan: Bytes, previous: Bytes, channels: nat, n: nat): (row: Bytes)
    requires 0 < channels && n <= |scan| && n <= |previous|
    ensures |row| == n
  {
    if n == 0 then [] else
    var row := Unfilter(filter, scan, previous, channels, n - 1);
    var x: int := scan[n - 1];
    row + [(x + PredictAt(filter, row, previous, n - 1, channels)) % 256]
  }

  /** A prediction only looks at bytes before i. */
  lemma PredictPrefix(filter: Byte, row: Bytes, previous: Bytes, i: nat, channels: nat)
    requires 0 < channels && i <= |row| && i < |previous|
    ensures PredictAt(filter, row[..i], previous, i, channels) == PredictAt(filter, row, previous, i, channels)
  {
  }

  lemma FilterByte(filter: Byte, row: Bytes, previous: Bytes, channels: nat, i: nat)
    requires 0 < channels && |row| == |previous| && i < |row|
    ensures var x: int := row[i];
            Filter(filter, row, previous, channels)[i] == (x - PredictAt(filter, row, previous, i, channels)) % 256
  {
    hide PredictAt;
  }

  lemma {:induction false} UnfilterFilter(filter: Byte, row: Bytes, previous: Bytes, channels: nat, n: nat)
    requires 0 < channels && |row| == |previous| && n <= |row|
    ensures Unfilter(filter, Filter(filter, row, previous, channels), previous, channels, n) == row[..n]
  {
    hide PredictAt;
    hide Filter;
    if n > 0 {
      UnfilterFilter(filter, row, previous, channels, n - 1);
      var x: int := row[n - 1];
      FilterByte(filter, row, previous, channels, n - 1);
      PredictPrefix(filter, row, previous, n - 1, channels);
      AddSubtract(x, PredictAt(filter, row, previous, n - 1, channels), 256);
      assert row[..n] == row[..n - 1] + [row[n - 1]];
    }
  }

  lemma {:induction false} UnfilterPrefix(filter: Byte, scan: Bytes, previous: Bytes, channels: nat, n: nat, m: nat)
    requires 0 < channels && m <= n <= |scan| && n <= |previous|
    ensures Unfilter(filter, scan, previous, channels, n)[..m] == Unfilter(filter, scan, previous, channels, m)
    decreases n
  {
    if m < n {
      UnfilterPrefix(filter, scan, previous, channels, n - 1, m);
    }
  }

  /** Each byte of an unfiltered row is its scan byte plus its prediction from the row itself. */
  lemma UnfilteredByte(filter: Byte, scan: Bytes, previous: Bytes, channels: nat, i: nat)
    requires 0 < channels && |scan| == |previous| && i < |scan|
    ensures var row := Unfilter(filter, scan, previous, channels, |scan|);
            var x: int := scan[i];
            row[i] == (x + PredictAt(filter, row, previous, i, channels)) % 256
  {
    var row := Unfilter(filter, scan, previous, channels, |scan|);
    UnfilterPrefix(filter, scan, previous, channels, |scan|, i);
    UnfilterPrefix(filter, scan, previous, channels, |scan|, i + 1);
    PredictPrefix(filter, row, previous, i, channels);
    hide PredictAt;
    assert row[i] == row[..i + 1][i];
  }

  /** Section 6 of RFC 2083, filter by filter: what is added to byte i of the scan line. */
  ghost predicate Reconstructs(filter: Byte, scan: Bytes, previous: Bytes, channels: nat, row: Bytes, i: nat)
    requires i < |row| && i < |scan| && i < |previous|
  {
    var x: int, up: int := scan[i], previous[i];
    var left: int, upLeft: int := if channels <= i then row[i - channels] else 0,
                                  if channels <= i then previous[i - channels] else 0;
    && (filter == 0 ==> row[i] == x)
    && (filter == 1 ==> row[i] == (x + left) % 256)
    && (filter == 2 ==> row[i] == (x + up) % 256)
    && (filter == 3 ==> row[i] == (x + (left + up) / 2) % 256)
    && (filter == 4 ==> row[i] == (x + Paeth(left, up, upLeft)) % 256)
  }

  lemma UnfilterMeans(filter: Byte, scan: Bytes, previous: Bytes, channels: nat, i: nat)
    requires 0 < channels && |scan| <= |previous| && i < |scan|
    ensures Reconstructs(filter, scan, previous, channels, Unfilter(filter, scan, previous, channels, |scan|), i)
  {
    hide Paeth;
    var row := Unfilter(filter, scan, previous, channels, |scan|);
    UnfilterPrefix(filter, scan, previous, channels, |scan|, i);
    UnfilterPrefix(filter, scan, previous, channels, |scan|, i + 1);
    PredictPrefix(filter, row, previous, i, channels);
    assert row[i] == row[..i + 1][i];
    assert row[i] == (scan[i] + PredictAt(filter, row, previous, i, channels)) % 256;
  }

  lemma FilterUnfilter(filter: Byte, scan: Bytes, previous: Bytes, channels: nat)
    requires 0 < channels && |scan| == |previous|
    ensures Filter(filter, Unfilter(filter, scan, previous, channels, |scan|), previous, channels) == scan
  {
    var row := Unfilter(filter, scan, previous, channels, |scan|);
    var back := Filter(filter, row, previous, channels);
    hide PredictAt;
    hide Unfilter;
    forall i | 0 <= i < |scan| ensures back[i] == scan[i] {
      UnfilteredByte(filter, scan, previous, channels, i);
      var x: int := scan[i];
      AddSubtract(x, PredictAt(filter, row, previous, i, channels), 256);
    }
  }

  // Whole images: one filter type and one row after the other.

  function FilterImage(filters: seq<Byte>, rows: seq<Bytes>, previous: Bytes, channels: nat): Bytes
    requires 0 < channels && |filters| == |rows|
    requires forall y :: 0 <= y < |rows| ==> |rows[y]| == |previous|
  {
    if rows == [] then []
    else [filters[0]] + Filter(filters[0], rows[0], previous, channels)
         + FilterImage(filters[1..], rows[1..], rows[0], channels)
  }

  /** How many raw bytes an image has: a filter type and n bytes for each row. */
  function ImageSize(height: nat, n: nat): nat {
    if height == 0 then 0 else 1 + n + ImageSize(height - 1, n)
  }

  lemma {:induction false} ImageSizeIsProduct(height: nat, n: nat)
    ensures ImageSize(height, n) == height * (1 + n)
  {
    if height > 0 {
      ImageSizeIsProduct(height - 1, n);
      assert height * (1 + n) == (height - 1) * (1 + n) + (1 + n);
    }
  }

  /** The filter type of each row. */
  function FilterBytes(raw: Bytes, height: nat, n: nat): (filters: seq<Byte>)
    requires |raw| == ImageSize(height, n)
    ensures |filters| == height
    decreases height
  {
    if height == 0 then [] else [raw[0]] + FilterBytes(raw[n + 1..], height - 1, n)
  }
}
