/**
 Byte strings, the fixed-width integers that the file and wire formats are made of, and the few types and
 sequence operations that all modules share.
 */
module Octets {
  type Byte = b: int | 0 <= b < 256

  type Bytes = seq<Byte>

  datatype Option<+T> = None | Some(value: T)

  datatype Result<+T, +E> = Ok(value: T) | Err(error: E)

  // The largest value that a four byte field holds, plus one.
  const WORD := 0x1_0000_0000

  /** The low 16 bits of n, least significant byte first. */
  function Le16(n: int): (b: Bytes)
    ensures |b| == 2
  {
    [n % 0x100, n / 0x100 % 0x100]
  }

  /** The low 32 bits of n, least significant byte first. */
  function Le32(n: int): (b: Bytes)
    ensures |b| == 4
  {
    [n % 0x100, n / 0x100 % 0x100, n / 0x1_0000 % 0x100, n / 0x100_0000 % 0x100]
  }

  /** The low 32 bits of n, most significant byte first. */
  function Be32(n: int): (b: Bytes)
    ensures |b| == 4
  {
    [n / 0x100_0000 % 0x100, n / 0x1_0000 % 0x100, n / 0x100 % 0x100, n % 0x100]
  }

  function U16At(b: Bytes, at: nat): nat
    requires at + 2 <= |b|
  {
    var b0: int, b1: int := b[at], b[at + 1];
    b0 + 0x100 * b1
  }

  function U32At(b: Bytes, at: nat): nat
    requires at + 4 <= |b|
  {
    var b0: int, b1: int, b2: int, b3: int := b[at], b[at + 1], b[at + 2], b[at + 3];
    b0 + 0x100 * b1 + 0x1_0000 * b2 + 0x100_0000 * b3
  }

  function BigU32At(b: Bytes, at: nat): nat
    requires at + 4 <= |b|
  {
    var b0: int, b1: int, b2: int, b3: int := b[at], b[at + 1], b[at + 2], b[at + 3];
    0x100_0000 * b0 + 0x1_0000 * b1 + 0x100 * b2 + b3
  }

  /** Reading a little-endian word back yields the number modulo the word size. */
  lemma Le32Reads(n: int, b: Bytes, at: nat)
    requires at + 4 <= |b| && b[at..at + 4] == Le32(n)
    ensures U32At(b, at) == n % WORD
  {
    forall i | 0 <= i < 4 ensures b[at + i] == Le32(n)[i] {
      assert b[at + i] == b[at..at + 4][i];
    }
    assert b[at] == Le32(n)[0] && b[at + 1] == Le32(n)[1] && b[at + 2] == Le32(n)[2] && b[at + 3] == Le32(n)[3];
    WordDigits(n);
  }

  lemma Be32Reads(n: int, b: Bytes, at: nat)
    requires at + 4 <= |b| && b[at..at + 4] == Be32(n)
    ensures BigU32At(b, at) == n % WORD
  {
    forall i | 0 <= i < 4 ensures b[at + i] == Be32(n)[i] {
      assert b[at + i] == b[at..at + 4][i];
    }
    assert b[at] == Be32(n)[0] && b[at + 1] == Be32(n)[1] && b[at + 2] == Be32(n)[2] && b[at + 3] == Be32(n)[3];
    WordDigits(n);
  }

  lemma Le16Reads(n: int, b: Bytes, at: nat)
    requires at + 2 <= |b| && b[at..at + 2] == Le16(n)
    ensures U16At(b, at) == n % 0x1_0000
  {
    forall i | 0 <= i < 2 ensures b[at + i] == Le16(n)[i] {
      assert b[at + i] == b[at..at + 2][i];
    }
    assert b[at] == Le16(n)[0] && b[at + 1] == Le16(n)[1];
  }

  lemma WordDigits(n: int)
    ensures n % 0x100 + 0x100 * (n / 0x100 % 0x100) + 0x1_0000 * (n / 0x1_0000 % 0x100)
            + 0x100_0000 * (n / 0x100_0000 % 0x100) == n % WORD
  {
    var a := n / 0x100;
    var b := a / 0x100;
    var c := b / 0x100;
    assert b == n / 0x1_0000;
    assert c == n / 0x100_0000;
  }

  /** The character codes of a text, one byte a character. */
  function Ascii(text: string): (b: Bytes)
    ensures |b| == |text|
  {
    seq(|text|, i requires 0 <= i < |text| => text[i] as int % 0x100)
  }

  /** Byte orders, spelled out. */
  lemma ByteOrders()
    ensures Le16(0x0102) == [2, 1] && Le32(0x0102_0304) == [4, 3, 2, 1] && Be32(0x0102_0304) == [1, 2, 3, 4]
    ensures U16At([2, 1], 0) == 0x0102 && U32At([4, 3, 2, 1], 0) == 0x0102_0304 && BigU32At([1, 2, 3, 4], 0) == 0x0102_0304
  {
  }

  /** No element occurs twice. */
  predicate Distinct<T(==)>(s: seq<T>) {
    forall i, j :: 0 <= i < j < |s| ==> s[i] != s[j]
  }

  lemma Assoc(a: Bytes, b: Bytes, c: Bytes)
    ensures a + b + c == a + (b + c)
  {
  }

  function Min(a: int, b: int): int {
    if a <= b then a else b
  }

  /** A Python slice: bounds past the end are clipped. */
  function Slice<T>(s: seq<T>, lo: nat, hi: nat): seq<T> {
    var from, to := Min(lo, |s|), Min(hi, |s|);
    if from <= to then s[from..to] else []
  }

  function Drop<T>(s: seq<T>, n: nat): seq<T> {
    if n <= |s| then s[n..] else []
  }
}
