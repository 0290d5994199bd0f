/** Decimal text of natural numbers, as str() prints it, and reading it back. */
module Decimal {
  import opened Octets

  const ZERO: Byte := 48

  predicate IsDigit(b: Byte) {
    48 <= b <= 57
  }

  predicate AllDigits(d: Bytes) {
    forall i :: 0 <= i < |d| ==> IsDigit(d[i])
  }

  function Digits(n: nat): (d: Bytes)
    ensures d != [] && AllDigits(d)
    ensures d[0] == ZERO ==> n == 0
  {
    if n < 10 then [48 + n] else Digits(n / 10) + [48 + n % 10]
  }

  function Value(d: Bytes): nat
    requires AllDigits(d)
  {
    if d == [] then 0 else
    var last: int := d[|d| - 1];
    Value(d[..|d| - 1]) * 10 + (last - 48)
  }

  /** str() never prints a leading zero, except for zero itself. */
  predicate Canonical(d: Bytes) {
    d != [] && AllDigits(d) && (d[0] == ZERO ==> |d| == 1)
  }

  lemma {:induction false} ValueOfDigits(n: nat)
    ensures Value(Digits(n)) == n && Canonical(Digits(n))
  {
    if n >= 10 {
      ValueOfDigits(n / 10);
      assert Digits(n)[..|Digits(n)| - 1] == Digits(n / 10);
    }
  }

  lemma {:induction false} DigitsOfValue(d: Bytes)
    requires Canonical(d)
    ensures Digits(Value(d)) == d
  {
    var k := |d| - 1;
    assert d == d[..k] + [d[k]];
    if k > 0 {
      DigitsOfValue(d[..k]);
      PositiveValue(d[..k]);
      var last: int := d[k];
      assert Value(d) == Value(d[..k]) * 10 + (last - 48);
      assert Value(d) / 10 == Value(d[..k]) && Value(d) % 10 == last - 48;
    } else {
      assert Value(d[..0]) == 0;
    }
  }

  lemma {:induction false} PositiveValue(d: Bytes)
    requires AllDigits(d) && d != [] && d[0] != ZERO
    ensures Value(d) >= 1
  {
    if |d| > 1 {
      PositiveValue(d[..|d| - 1]);
    } else {
      assert Value(d[..0]) == 0;
    }
  }

  /** How many digits b starts with. */
  function DigitRun(b: Bytes): (k: nat)
    ensures k <= |b| && AllDigits(b[..k])
    ensures k < |b| ==> !IsDigit(b[k])
  {
    if b == [] || !IsDigit(b[0]) then 0 else
    var k := DigitRun(b[1..]);
    assert b[..k + 1] == [b[0]] + b[1..][..k];
    k + 1
  }

  lemma {:induction false} RunOfDigits(d: Bytes, rest: Bytes)
    requires AllDigits(d) && (rest == [] || !IsDigit(rest[0]))
    ensures DigitRun(d + rest) == |d|
  {
    if d == [] {
      assert d + rest == rest;
    } else {
      assert (d + rest)[1..] == d[1..] + rest;
      RunOfDigits(d[1..], rest);
    }
  }

  /** Reads the number that b starts with. */
  function ReadNat(b: Bytes): Option<(nat, Bytes)> {
    var k := DigitRun(b);
    if k == 0 then None else Some((Value(b[..k]), b[k..]))
  }

  lemma ReadsDigits(n: nat, rest: Bytes)
    requires rest == [] || !IsDigit(rest[0])
    ensures ReadNat(Digits(n) + rest) == Some((n, rest))
  {
    var d := Digits(n);
    RunOfDigits(d, rest);
    ValueOfDigits(n);
    assert (d + rest)[..|d|] == d && (d + rest)[|d|..] == rest;
  }

  /** The same, for numbers printed without leading zeros only. */
  function ReadCanonical(b: Bytes): Option<(nat, Bytes)> {
    var k := DigitRun(b);
    if Canonical(b[..k]) then Some((Value(b[..k]), b[k..])) else None
  }

  lemma ReadsCanonical(n: nat, rest: Bytes)
    requires rest == [] || !IsDigit(rest[0])
    ensures ReadCanonical(Digits(n) + rest) == Some((n, rest))
  {
    var d := Digits(n);
    RunOfDigits(d, rest);
    ValueOfDigits(n);
    assert (d + rest)[..|d|] == d && (d + rest)[|d|..] == rest;
  }

  lemma CanonicalRead(b: Bytes)
    ensures match ReadCanonical(b)
            case None => true
            case Some((n, rest)) => b == Digits(n) + rest && |rest| < |b|
  {
    var k := DigitRun(b);
    if Canonical(b[..k]) {
      DigitsOfValue(b[..k]);
      assert b == b[..k] + b[k..];
    }
  }
}
