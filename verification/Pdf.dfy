/**
 The PDF writer of examples/wps/build-pdf-fixture.py for any list of objects, and random access through
 startxref and the cross-reference table: sections 7.5.4 and 7.5.5 of ISO 32000-1.
 */
module Pdf {
  import opened Octets
  import opened Decimal

  const NEWLINE: Bytes := [10]
  const TEN_DIGITS := 10_000_000_000

  function FileHeader(): Bytes {
    Ascii("%PDF-1.4\n%") + [0xE2, 0xE3, 0xCF, 0xD3, 10]
  }

  // One indirect object: its header line, its body, and its trailer line.
  function ObjectText(number: nat, body: Bytes): Bytes {
    Digits(number) + Ascii(" 0 obj\n") + body + Ascii("\nendobj\n")
  }

  /** The file up to and including the first k objects. */
  function Prefix(objects: seq<Bytes>, k: nat): Bytes
    requires k <= |objects|
  {
    if k == 0 then FileHeader() else Prefix(objects, k - 1) + ObjectText(k, objects[k - 1])
  }

  function Offset(objects: seq<Bytes>, k: nat): nat
    requires 1 <= k <= |objects|
  {
    |Prefix(objects, k - 1)|
  }

  function XrefOffset(objects: seq<Bytes>): nat {
    |Prefix(objects, |objects|)|
  }

  function ZeroDigits(n: nat): (z: Bytes)
    ensures |z| == n
  {
    seq(n, _ => ZERO)
  }

  /** f"{n:010d}" */
  function Padded(n: nat): Bytes {
    var d := Digits(n);
    if |d| < 10 then ZeroDigits(10 - |d|) + d else d
  }

  function Entry(offset: nat): Bytes {
    Padded(offset) + Ascii(" 00000 n \n")
  }

  /** The entries of the first k objects, behind the free entry. */
  function Entries(objects: seq<Bytes>, k: nat): Bytes
    requires k <= |objects|
  {
    if k == 0 then Ascii("0000000000 65535 f \n")
    else Entries(objects, k - 1) + Entry(Offset(objects, k))
  }

  function XrefHead(size: nat): Bytes {
    Ascii("xref\n0 ") + Digits(size) + NEWLINE
  }

  function TrailerHead(size: nat): Bytes {
    Ascii("trailer\n<< /Size ") + Digits(size) + Ascii(" /Root 1 0 R /Info 8 0 R >>\n")
  }

  function StartXref(xref: nat): Bytes {
    Ascii("startxref") + NEWLINE + Digits(xref) + Ascii("\n%%EOF\n")
  }

  function Pdf(objects: seq<Bytes>): Bytes {
    var n := |objects|;
    Prefix(objects, n) + XrefHead(n + 1) + Entries(objects, n) + TrailerHead(n + 1) + StartXref(XrefOffset(objects))
  }

  method BuildPdf(objects: seq<Bytes>) returns (output: Bytes)
    ensures output == Pdf(objects)
  {
    hide ObjectText;
    hide Entry;
    hide XrefHead;
    hide TrailerHead;
    hide StartXref;
    hide FileHeader;
    hide Ascii;
    var n := |objects|;
    output := FileHeader();
    var offsets: seq<nat> := [0];
    for number := 1 to n + 1
      invariant output == Prefix(objects, number - 1)
      invariant |offsets| == number
      invariant forall k :: 1 <= k < number ==> offsets[k] == Offset(objects, k)
    {
      offsets := offsets + [|output|];
      output := output + ObjectText(number, objects[number - 1]);
    }
    var xrefOffset := |output|;
    output := output + XrefHead(n + 1);
    var before := output;
    output := output + Ascii("0000000000 65535 f \n");
    for k := 1 to n + 1
      invariant output == before + Entries(objects, k - 1)
    {
      output := output + Entry(offsets[k]);
    }
    output := output + TrailerHead(n + 1) + StartXref(xrefOffset);
  }

  // The reader.

  /** How many digits b ends with. */
  function TrailingDigits(b: Bytes): (k: nat)
    ensures k <= |b| && AllDigits(b[|b| - k..])
    ensures k < |b| ==> !IsDigit(b[|b| - k - 1])
  {
    if b == [] || !IsDigit(b[|b| - 1]) then 0 else
    var shorter := b[..|b| - 1];
    var k := TrailingDigits(shorter);
    assert b[|b| - (k + 1)..] == shorter[|shorter| - k..] + [b[|b| - 1]];
    k + 1
  }

  predicate EndsWith(b: Bytes, tail: Bytes) {
    |tail| <= |b| && b[|b| - |tail|..] == tail
  }

  /** The number between startxref and the end-of-file marker, which close the file. */
  function FindXref(data: Bytes): Option<nat> {
    var tail := Ascii("\n%%EOF\n");
    if !EndsWith(data, tail) then None else
    var b := data[..|data| - |tail|];
    var k := TrailingDigits(b);
    if k == 0 || !EndsWith(b[..|b| - k], Ascii("startxref") + NEWLINE) then None
    else Some(Value(b[|b| - k..]))
  }

  /** Where the 20 byte entries of the table at `at` begin, and how many there are. */
  function XrefTable(data: Bytes, at: nat): Option<(nat, nat)> {
    var head := Ascii("xref\n0 ");
    if |data| < at + |head| || data[at..at + |head|] != head then None else
    match ReadNat(data[at + |head|..])
    case None => None
    case Some((count, rest)) =>
      if rest == [] || rest[0] != 10 then None else Some((|data| - |rest| + 1, count))
  }

  /** The offset that the k-th 20 byte entry records. */
  function EntryOffset(data: Bytes, base: nat, k: nat): Option<nat> {
    var at := base + 20 * k;
    if |data| < at + 20 || DigitRun(data[at..at + 10]) != 10 || data[at + 10..at + 20] != Ascii(" 00000 n \n") then None
    else Some(Value(data[at..at + 10]))
  }

  /** Object k by random access: from its offset to the next object, or to the table. */
  function FetchObject(data: Bytes, k: nat): Option<Bytes> {
    match FindXref(data)
    case None => None
    case Some(xref) =>
      match XrefTable(data, xref)
      case None => None
      case Some((base, count)) =>
        if k == 0 || count <= k then None else
        match (EntryOffset(data, base, k), if k + 1 < count then EntryOffset(data, base, k + 1) else Some(xref))
        case (Some(from), Some(to)) => if from <= to <= |data| then Some(data[from..to]) else None
        case _ => None
  }

  // Numbers.

  lemma {:induction false} LeadingZeros(n: nat, d: Bytes)
    requires AllDigits(d)
    ensures AllDigits(ZeroDigits(n) + d) && Value(ZeroDigits(n) + d) == Value(d)
    decreases |d|, n
  {
    var z := ZeroDigits(n) + d;
    if d != [] {
      LeadingZeros(n, d[..|d| - 1]);
      assert z[..|z| - 1] == ZeroDigits(n) + d[..|d| - 1];
    } else if n > 0 {
      LeadingZeros(n - 1, []);
      assert z[..|z| - 1] == ZeroDigits(n - 1) + [];
      assert Value(ZeroDigits(n - 1) + []) == 0;
    }
  }

  /** Ten digits are enough exactly for the numbers below ten to the ten. */
  lemma TenDigits(n: nat)
    ensures |Padded(n)| == 10 <==> n < TEN_DIGITS
    ensures |Padded(n)| >= 10
  {
    DigitCount(n, 10, TEN_DIGITS);
  }

  function Power10(k: nat): nat {
    if k == 0 then 1 else 10 * Power10(k - 1)
  }

  lemma {:induction false} DigitCountPower(n: nat, k: nat)
    requires 1 <= k
    ensures |Digits(n)| <= k <==> n < Power10(k)
  {
    if k == 1 {
      assert Power10(1) == 10 * Power10(0);
    } else if n >= 10 {
      DigitCountPower(n / 10, k - 1);
    } else {
      PowerAtLeastTen(k);
    }
  }

  lemma {:induction false} PowerAtLeastTen(k: nat)
    requires 1 <= k
    ensures Power10(k) >= 10
  {
    if k > 1 {
      PowerAtLeastTen(k - 1);
    } else {
      assert Power10(1) == 10 * Power10(0);
    }
  }

  lemma DigitCount(n: nat, k: nat, power: nat)
    requires k == 10 && power == TEN_DIGITS
    ensures |Digits(n)| <= k <==> n < power
  {
    DigitCountPower(n, 10);
    assert Power10(4) == 10_000 by {
      assert Power10(2) == 10 * Power10(1) == 10 * (10 * Power10(0));
      assert Power10(4) == 10 * Power10(3) == 10 * (10 * Power10(2));
    }
    assert Power10(7) == 10 * Power10(6) == 10 * (10 * Power10(5)) == 10 * (10 * (10 * Power10(4)));
    assert Power10(10) == 10 * Power10(9) == 10 * (10 * Power10(8)) == 10 * (10 * (10 * Power10(7)));
  }

  lemma PaddedReads(n: nat)
    requires n < TEN_DIGITS
    ensures |Padded(n)| == 10 && AllDigits(Padded(n)) && Value(Padded(n)) == n
  {
    TenDigits(n);
    ValueOfDigits(n);
    var d := Digits(n);
    hide Digits;
    hide Value;
    if |d| < 10 {
      LeadingZeros(10 - |d|, d);
    }
  }

  lemma {:induction false} AllTrailing(before: Bytes, d: Bytes)
    requires AllDigits(d) && (before == [] || !IsDigit(before[|before| - 1]))
    ensures TrailingDigits(before + d) == |d|
    decreases |d|
  {
    if d == [] {
      assert before + d == before;
    } else {
      assert (before + d)[..|before + d| - 1] == before + d[..|d| - 1];
      AllTrailing(before, d[..|d| - 1]);
    }
  }

  // Where the parts of the file are.

  lemma {:induction false} PrefixGrows(objects: seq<Bytes>, k: nat, n: nat)
    requires k <= n <= |objects|
    ensures Prefix(objects, k) <= Prefix(objects, n)
    decreases n
  {
    hide ObjectText;
    if k < n {
      PrefixGrows(objects, k, n - 1);
    }
  }

  /** The bytes from an object's offset to the next boundary are the object. */
  lemma ObjectIsThere(objects: seq<Bytes>, k: nat, after: Bytes)
    requires 1 <= k <= |objects|
    ensures var n, to := |objects|, |Prefix(objects, k)|;
            && Offset(objects, k) <= to <= |Prefix(objects, n)|
            && (Prefix(objects, n) + after)[Offset(objects, k)..to] == ObjectText(k, objects[k - 1])
  {
    hide ObjectText;
    PrefixGrows(objects, k, |objects|);
    var p, q := Prefix(objects, |objects|), Prefix(objects, k);
    assert (p + after)[Offset(objects, k)..|q|] == p[..|q|][Offset(objects, k)..];
  }

  ghost predicate Fits(objects: seq<Bytes>, k: nat)
    requires k <= |objects|
  {
    forall j :: 1 <= j <= k ==> Offset(objects, j) < TEN_DIGITS
  }

  /** Every entry is twenty bytes long exactly when every offset fits in ten digits. */
  lemma {:induction false} EntriesLength(objects: seq<Bytes>, k: nat)
    requires k <= |objects|
    ensures |Entries(objects, k)| >= 20 * (k + 1)
    ensures |Entries(objects, k)| == 20 * (k + 1) <==> Fits(objects, k)
  {
    hide Padded;
    hide Prefix;
    if k > 0 {
      EntriesLength(objects, k - 1);
      TenDigits(Offset(objects, k));
      assert |Entry(Offset(objects, k))| == |Padded(Offset(objects, k))| + 10;
    }
  }

  lemma {:induction false} EntryIsThere(objects: seq<Bytes>, k: nat, n: nat)
    requires 1 <= k <= n <= |objects| && Fits(objects, n)
    ensures |Entries(objects, n)| == 20 * (n + 1)
    ensures Entries(objects, n)[20 * k..20 * (k + 1)] == Entry(Offset(objects, k))
    decreases n
  {
    hide Entry;
    hide Offset;
    EntriesLength(objects, n);
    EntriesLength(objects, n - 1);
    if k < n {
      EntryIsThere(objects, k, n - 1);
    }
  }

  lemma EntryReads(data: Bytes, base: nat, entries: Bytes, k: nat, offset: nat)
    requires base + |entries| <= |data| && data[base..base + |entries|] == entries
    requires 20 * (k + 1) <= |entries| && entries[20 * k..20 * (k + 1)] == Entry(offset)
    requires offset < TEN_DIGITS
    ensures EntryOffset(data, base, k) == Some(offset)
  {
    SubSlice(data, base, entries, 20 * k, 20 * (k + 1));
    var at := base + 20 * k;
    assert data[at..at + 20] == Entry(offset);
    EntryDigits(data, at, offset);
  }

  lemma EntryDigits(data: Bytes, at: nat, offset: nat)
    requires at + 20 <= |data| && data[at..at + 20] == Entry(offset) && offset < TEN_DIGITS
    ensures data[at..at + 10] == Padded(offset) && data[at + 10..at + 20] == Ascii(" 00000 n \n")
    ensures DigitRun(data[at..at + 10]) == 10 && Value(data[at..at + 10]) == offset
  {
    hide Ascii;
    hide Padded;
    hide Value;
    hide DigitRun;
    PaddedReads(offset);
    assert data[at..at + 10] == data[at..at + 20][..10] == Padded(offset);
    assert data[at + 10..at + 20] == data[at..at + 20][10..] == Ascii(" 00000 n \n");
    RunOfDigits(Padded(offset), []);
    assert Padded(offset) + [] == Padded(offset);
  }

  lemma SubSlice(data: Bytes, base: nat, part: Bytes, lo: nat, hi: nat)
    requires base + |part| <= |data| && data[base..base + |part|] == part && lo <= hi <= |part|
    ensures data[base + lo..base + hi] == part[lo..hi]
  {
    forall i | 0 <= i < |part| ensures data[base + i] == part[i] {
      assert data[base..base + |part|][i] == data[base + i];
    }
    forall i | 0 <= i < hi - lo ensures data[base + lo..base + hi][i] == part[lo..hi][i] {
      assert data[base + (lo + i)] == part[lo + i];
    }
  }

  lemma XrefTableReads(before: Bytes, size: nat, after: Bytes)
    ensures XrefTable(before + XrefHead(size) + after, |before|) == Some((|before| + |XrefHead(size)|, size))
  {
    hide Ascii;
    hide Digits;
    var data, at, head := before + XrefHead(size) + after, |before|, Ascii("xref\n0 ");
    assert data[at..at + |head|] == head;
    assert data[at + |head|..] == Digits(size) + (NEWLINE + after);
    ReadsDigits(size, NEWLINE + after);
  }

  lemma FindXrefReads(before: Bytes, xref: nat)
    ensures FindXref(before + StartXref(xref)) == Some(xref)
  {
    hide Ascii;
    hide Digits;
    hide Value;
    hide TrailingDigits;
    var data, tail := before + StartXref(xref), Ascii("\n%%EOF\n");
    var front := before + (Ascii("startxref") + NEWLINE);
    assert data == front + Digits(xref) + tail;
    assert data[..|data| - |tail|] == front + Digits(xref);
    assert front[|front| - 1] == 10;
    AllTrailing(front, Digits(xref));
    ValueOfDigits(xref);
    var b := front + Digits(xref);
    assert b[..|b| - |Digits(xref)|] == front && b[|b| - |Digits(xref)|..] == Digits(xref);
    assert EndsWith(front, Ascii("startxref") + NEWLINE);
  }

  lemma Layout(objects: seq<Bytes>)
    ensures var n := |objects|;
            var head := Prefix(objects, n) + XrefHead(n + 1);
            var rest := TrailerHead(n + 1) + StartXref(XrefOffset(objects));
            && Pdf(objects) == head + (Entries(objects, n) + rest)
            && Pdf(objects) == Prefix(objects, n) + (XrefHead(n + 1) + (Entries(objects, n) + rest))
            && Pdf(objects) == (head + Entries(objects, n) + TrailerHead(n + 1)) + StartXref(XrefOffset(objects))
  {
    hide Prefix;
    hide XrefHead;
    hide Entries;
    hide TrailerHead;
    hide StartXref;
    var n := |objects|;
    Assoc5(Prefix(objects, n), XrefHead(n + 1), Entries(objects, n), TrailerHead(n + 1), StartXref(XrefOffset(objects)));
  }

  lemma Assoc5(a: Bytes, b: Bytes, c: Bytes, d: Bytes, e: Bytes)
    ensures a + b + c + d + e == a + b + (c + (d + e))
    ensures a + b + c + d + e == a + (b + (c + (d + e)))
  {
    assert a + b + c + d + e == a + b + c + (d + e);
    assert a + b + c + (d + e) == a + b + (c + (d + e));
  }

  /** Where the entries of the written table begin. */
  function Base(objects: seq<Bytes>): nat {
    XrefOffset(objects) + |XrefHead(|objects| + 1)|
  }

  /** The table behind startxref: it starts at the recorded place and has an entry for each object. */
  lemma TableIsFound(objects: seq<Bytes>)
    ensures FindXref(Pdf(objects)) == Some(XrefOffset(objects))
    ensures XrefTable(Pdf(objects), XrefOffset(objects))
            == Some((Base(objects), |objects| + 1))
  {
    var n := |objects|;
    Layout(objects);
    hide Prefix;
    hide XrefHead;
    hide Entries;
    hide TrailerHead;
    hide StartXref;
    hide Pdf;
    hide FindXref;
    hide XrefTable;
    FindXrefReads(Prefix(objects, n) + XrefHead(n + 1) + Entries(objects, n) + TrailerHead(n + 1), XrefOffset(objects));
    XrefTableReads(Prefix(objects, n), n + 1,
                   Entries(objects, n) + (TrailerHead(n + 1) + StartXref(XrefOffset(objects))));
  }

  lemma EntryOfObject(objects: seq<Bytes>, k: nat)
    requires 1 <= k <= |objects| && Fits(objects, |objects|)
    ensures EntryOffset(Pdf(objects), Base(objects), k) == Some(Offset(objects, k))
  {
    assert Offset(objects, k) < TEN_DIGITS;
    hide Base;
    hide Pdf;
    hide Entries;
    hide Entry;
    hide EntryOffset;
    hide Fits;
    hide Offset;
    EntryIsThere(objects, k, |objects|);
    EntriesInside(objects);
    EntryReads(Pdf(objects), Base(objects), Entries(objects, |objects|), k, Offset(objects, k));
  }

  lemma EntriesInside(objects: seq<Bytes>)
    ensures var data, base, entries := Pdf(objects), Base(objects), Entries(objects, |objects|);
            base + |entries| <= |data| && data[base..base + |entries|] == entries
  {
    var n := |objects|;
    Layout(objects);
    hide Prefix;
    hide XrefHead;
    hide Entries;
    hide TrailerHead;
    hide StartXref;
    hide Pdf;
    SliceInside(Prefix(objects, n) + XrefHead(n + 1), Entries(objects, n),
                TrailerHead(n + 1) + StartXref(XrefOffset(objects)));
  }

  lemma SliceInside(head: Bytes, body: Bytes, rest: Bytes)
    ensures (head + (body + rest))[|head|..|head| + |body|] == body
  {
  }

  /**
   Random access: for any objects whose offsets fit in ten digits, following startxref and the k-th entry
   yields exactly the k-th object, header and trailer included.
   */
  lemma RandomAccess(objects: seq<Bytes>, k: nat)
    requires 1 <= k <= |objects| && Fits(objects, |objects|)
    ensures FetchObject(Pdf(objects), k) == Some(ObjectText(k, objects[k - 1]))
  {
    hide Base;
    hide Pdf;
    hide ObjectText;
    hide Prefix;
    hide FetchObject;
    hide FindXref;
    hide XrefTable;
    hide EntryOffset;
    hide Fits;
    hide Offset;
    hide XrefOffset;
    TableIsFound(objects);
    EntryPair(objects, k);
    ObjectBytes(objects, k);
    FetchReads(Pdf(objects), k, XrefOffset(objects), Base(objects), |objects| + 1,
               Offset(objects, k), |Prefix(objects, k)|);
  }

  /** The entries of an object and of the next one, or the table, bound the object. */
  lemma EntryPair(objects: seq<Bytes>, k: nat)
    requires 1 <= k <= |objects| && Fits(objects, |objects|)
    ensures EntryOffset(Pdf(objects), Base(objects), k) == Some(Offset(objects, k))
    ensures k < |objects| ==> EntryOffset(Pdf(objects), Base(objects), k + 1) == Some(|Prefix(objects, k)|)
    ensures k == |objects| ==> XrefOffset(objects) == |Prefix(objects, k)|
  {
    hide Base;
    hide Pdf;
    hide Prefix;
    hide EntryOffset;
    hide Fits;
    EntryOfObject(objects, k);
    if k < |objects| {
      EntryOfObject(objects, k + 1);
    }
  }

  lemma ObjectBytes(objects: seq<Bytes>, k: nat)
    requires 1 <= k <= |objects|
    ensures var data, from, to := Pdf(objects), Offset(objects, k), |Prefix(objects, k)|;
            from <= to <= |data| && data[from..to] == ObjectText(k, objects[k - 1])
  {
    var n := |objects|;
    Layout(objects);
    hide XrefHead;
    hide Entries;
    hide TrailerHead;
    hide StartXref;
    hide Pdf;
    hide Prefix;
    hide ObjectText;
    ObjectIsThere(objects, k,
                  XrefHead(n + 1) + (Entries(objects, n) + (TrailerHead(n + 1) + StartXref(XrefOffset(objects)))));
  }

  lemma FetchReads(data: Bytes, k: nat, xref: nat, base: nat, count: nat, from: nat, to: nat)
    requires FindXref(data) == Some(xref) && XrefTable(data, xref) == Some((base, count)) && 0 < k < count
    requires EntryOffset(data, base, k) == Some(from) && from <= to <= |data|
    requires if k + 1 < count then EntryOffset(data, base, k + 1) == Some(to) else to == xref
    ensures FetchObject(data, k) == Some(data[from..to])
  {
    hide FindXref;
    hide XrefTable;
    hide EntryOffset;
  }

  /** Nothing else is an object: the table has no entry beyond the last one. */
  lemma NoFurtherObject(objects: seq<Bytes>, k: nat)
    requires |objects| < k
    ensures FetchObject(Pdf(objects), k) == None
  {
    TableIsFound(objects);
    hide Pdf;
    hide FindXref;
    hide XrefTable;
  }

  // Stream objects.

  function StreamObject(contents: Bytes): Bytes {
    Ascii("<< /Length ") + Digits(|contents|) + Ascii(" >>\nstream\n") + contents + Ascii("endstream")
  }

  /** Reads as many bytes as /Length says; they must be followed by endstream and nothing else. */
  function ReadStream(b: Bytes): Option<Bytes> {
    var head, mid, tail := Ascii("<< /Length "), Ascii(" >>\nstream\n"), Ascii("endstream");
    if |b| < |head| || b[..|head|] != head then None else
    match ReadNat(b[|head|..])
    case None => None
    case Some((n, rest)) =>
      if |rest| != |mid| + n + |tail| || rest[..|mid|] != mid || rest[|mid| + n..] != tail then None
      else Some(rest[|mid|..|mid| + n])
  }

  /** /Length is the exact byte count, whatever the contents are. */
  lemma StreamReads(contents: Bytes)
    ensures ReadStream(StreamObject(contents)) == Some(contents)
  {
    var head, mid, tail := Ascii("<< /Length "), Ascii(" >>\nstream\n"), Ascii("endstream");
    assert mid[0] == 32;
    hide Ascii;
    hide Digits;
    var rest := mid + contents + tail;
    StreamParts(head, Digits(|contents|), mid, contents, tail);
    ReadsDigits(|contents|, rest);
  }

  lemma StreamParts(head: Bytes, digits: Bytes, mid: Bytes, contents: Bytes, tail: Bytes)
    ensures var b, rest := head + digits + mid + contents + tail, mid + contents + tail;
            && b[..|head|] == head && b[|head|..] == digits + rest
            && rest[..|mid|] == mid && rest[|mid|..|mid| + |contents|] == contents && rest[|mid| + |contents|..] == tail
  {
  }

  // What a reader finds in an object, and the whole file spelled out.

  /** An indirect object: its number, ` 0 obj` on the first line, the body, and `endobj` on the last line. */
  function ReadObject(b: Bytes): Option<(nat, Bytes)> {
    var head, tail := Ascii(" 0 obj\n"), Ascii("\nendobj\n");
    match ReadNat(b)
    case None => None
    case Some((number, rest)) =>
      if |rest| < |head| + |tail| || rest[..|head|] != head || rest[|rest| - |tail|..] != tail then None
      else Some((number, rest[|head|..|rest| - |tail|]))
  }

  lemma ObjectReads(number: nat, body: Bytes)
    ensures ReadObject(ObjectText(number, body)) == Some((number, body))
  {
    var head, tail := Ascii(" 0 obj\n"), Ascii("\nendobj\n");
    assert head[0] == 32;
    hide Ascii;
    hide Digits;
    var rest := head + body + tail;
    assert ObjectText(number, body) == Digits(number) + rest;
    ReadsDigits(number, rest);
    assert rest[..|head|] == head && rest[|rest| - |tail|..] == tail && rest[|head|..|rest| - |tail|] == body;
  }

  /** Following startxref and the k-th entry, a reader finds number k and exactly the k-th body. */
  lemma FetchedObjectReads(objects: seq<Bytes>, k: nat)
    requires 1 <= k <= |objects| && Fits(objects, |objects|)
    ensures var fetched := FetchObject(Pdf(objects), k);
            fetched.Some? && ReadObject(fetched.value) == Some((k, objects[k - 1]))
  {
    hide FetchObject;
    hide ReadObject;
    hide Fits;
    RandomAccess(objects, k);
    ObjectReads(k, objects[k - 1]);
  }

  /** The file of one object, line by line. */
  lemma SmallestFile()
    ensures Pdf([Ascii("null")])
            == Ascii("%PDF-1.4\n") + Ascii("%") + [0xE2, 0xE3, 0xCF, 0xD3] + Ascii("\n")
               + Ascii("1 0 obj\n") + Ascii("null") + Ascii("\nendobj\n")
               + Ascii("xref\n") + Ascii("0 2\n") + Ascii("0000000000 65535 f \n") + Ascii("0000000015 00000 n \n")
               + (Ascii("trailer\n") + Ascii("<< /Size ") + Ascii("2") + Ascii(" /Root 1 0 R /Info 8 0 R >>\n"))
               + Ascii("startxref\n") + Ascii("35\n") + Ascii("%%EOF\n")
  {
    var objects := [Ascii("null")];
    SmallestParts();
    hide Ascii;
    hide ObjectText;
    hide Entry;
    hide XrefHead;
    hide TrailerHead;
    hide StartXref;
    hide FileHeader;
    assert Prefix(objects, 0) == FileHeader();
    assert Prefix(objects, 1) == FileHeader() + ObjectText(1, Ascii("null"));
    assert Entries(objects, 0) == Ascii("0000000000 65535 f \n");
    assert Entries(objects, 1) == Ascii("0000000000 65535 f \n") + Entry(15);
  }

  lemma SmallestParts()
    ensures FileHeader() == Ascii("%PDF-1.4\n") + Ascii("%") + [0xE2, 0xE3, 0xCF, 0xD3] + Ascii("\n")
    ensures ObjectText(1, Ascii("null")) == Ascii("1 0 obj\n") + Ascii("null") + Ascii("\nendobj\n")
    ensures |FileHeader()| == 15 && |ObjectText(1, Ascii("null"))| == 20
    ensures XrefHead(2) == Ascii("xref\n") + Ascii("0 2\n")
    ensures Entry(15) == Ascii("0000000015 00000 n \n")
    ensures TrailerHead(2) == Ascii("trailer\n") + Ascii("<< /Size ") + Ascii("2") + Ascii(" /Root 1 0 R /Info 8 0 R >>\n")
    ensures StartXref(35) == Ascii("startxref\n") + Ascii("35\n") + Ascii("%%EOF\n")
  {
    SmallHead();
    SmallTable();
    SmallTrailer();
  }

  lemma SmallHead()
    ensures FileHeader() == Ascii("%PDF-1.4\n") + Ascii("%") + [0xE2, 0xE3, 0xCF, 0xD3] + Ascii("\n")
    ensures ObjectText(1, Ascii("null")) == Ascii("1 0 obj\n") + Ascii("null") + Ascii("\nendobj\n")
  {
    SmallNumbers();
    hide Digits;
    assert Ascii("%PDF-1.4\n%") == Ascii("%PDF-1.4\n") + Ascii("%");
    assert Ascii("1") + Ascii(" 0 obj\n") == Ascii("1 0 obj\n");
  }

  lemma SmallTable()
    ensures XrefHead(2) == Ascii("xref\n") + Ascii("0 2\n")
    ensures Entry(15) == Ascii("0000000015 00000 n \n")
  {
    SmallNumbers();
    hide Digits;
    hide Padded;
    assert Ascii("xref\n0 ") + Ascii("2") + NEWLINE == Ascii("xref\n") + Ascii("0 2\n");
    assert Ascii("0000000015") + Ascii(" 00000 n \n") == Ascii("0000000015 00000 n \n");
  }

  lemma SmallTrailer()
    ensures TrailerHead(2) == Ascii("trailer\n") + Ascii("<< /Size ") + Ascii("2") + Ascii(" /Root 1 0 R /Info 8 0 R >>\n")
    ensures StartXref(35) == Ascii("startxref\n") + Ascii("35\n") + Ascii("%%EOF\n")
  {
    SmallNumbers();
    TrailerWord();
    StartWord();
    hide Digits;
    hide Ascii;
    Assoc(Ascii("startxref\n"), Ascii("35"), Ascii("\n%%EOF\n"));
    Assoc(Ascii("startxref\n"), Ascii("35\n"), Ascii("%%EOF\n"));
  }

  lemma TrailerWord()
    ensures Ascii("trailer\n<< /Size ") == Ascii("trailer\n") + Ascii("<< /Size ")
  {
  }

  lemma StartWord()
    ensures Ascii("startxref") + NEWLINE == Ascii("startxref\n")
    ensures Ascii("35") + Ascii("\n%%EOF\n") == Ascii("35\n") + Ascii("%%EOF\n")
  {
  }

  lemma SmallNumbers()
    ensures Digits(1) == Ascii("1") && Digits(2) == Ascii("2") && Digits(35) == Ascii("35")
    ensures Padded(15) == Ascii("0000000015")
    ensures Ascii("\n") == NEWLINE
  {
    assert Digits(15) == [49, 53] && Digits(35) == [51, 53];
    assert ZeroDigits(8) == [48, 48, 48, 48, 48, 48, 48, 48];
  }
}
