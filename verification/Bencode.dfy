/**
 Bencoding as examples/popular-apps/build-torrent-fixture.py writes it: BEP 3, section "bencoding".
 A strict decoder is the independent partner: it accepts exactly what the encoder prints.
 */
module Bencode {
  import opened Octets
  import opened Decimal
  import opened KeyOrder

  // A dictionary lists its items in the order they were inserted; keys are byte strings.
  datatype Value =
    | Int(n: int)
    | Str(s: Bytes)
    | List(items: seq<Value>)
    | Dict(entries: seq<Entry>)

  datatype Entry = Entry(key: Bytes, value: Value)

  const CHAR_i: Byte := 105
  const CHAR_l: Byte := 108
  const CHAR_d: Byte := 100
  const CHAR_e: Byte := 101
  const COLON: Byte := 58
  const MINUS: Byte := 45

  function Keys(entries: seq<Entry>): (keys: seq<Bytes>)
    ensures |keys| == |entries| && forall i :: 0 <= i < |keys| ==> keys[i] == entries[i].key
  {
    seq(|entries|, i requires 0 <= i < |entries| => entries[i].key)
  }

  function Lookup(entries: seq<Entry>, key: Bytes): (v: Value)
    requires key in Keys(entries)
    ensures exists i :: 0 <= i < |entries| && entries[i] == Entry(key, v)
  {
    if entries[0].key == key then entries[0].value
    else
      assert key in Keys(entries[1..]) by {
        var i :| 0 <= i < |entries| && entries[i].key == key;
        assert Keys(entries[1..])[i - 1] == key;
      }
      var v := Lookup(entries[1..], key);
      assert exists i :: 0 <= i < |entries| && entries[i] == Entry(key, v) by {
        var i :| 0 <= i < |entries[1..]| && entries[1..][i] == Entry(key, v);
        assert entries[i + 1] == Entry(key, v);
      }
      v
  }

  /** A dictionary has each key once. */
  ghost predicate Valid(v: Value)
    decreases v
  {
    match v
    case Int(_) => true
    case Str(_) => true
    case List(items) => forall i :: 0 <= i < |items| ==> Valid(items[i])
    case Dict(entries) => Distinct(Keys(entries)) && forall i :: 0 <= i < |entries| ==> Valid(entries[i].value)
  }

  function SortedKeys(entries: seq<Entry>): seq<Bytes> {
    Sort(Keys(entries))
  }

  lemma {:induction false} SortKeepsMembers(keys: seq<Bytes>)
    ensures forall k :: k in Sort(keys) <==> k in keys
  {
    if keys != [] {
      SortKeepsMembers(keys[1..]);
      InsertMembers(keys[0], Sort(keys[1..]));
      assert forall k :: k in keys <==> k == keys[0] || k in keys[1..];
    }
  }

  // str(n) for any integer
  function IntText(n: int): Bytes {
    if n < 0 then [MINUS] + Digits(-n) else Digits(n)
  }

  function EncodeStr(s: Bytes): Bytes {
    Digits(|s|) + [COLON] + s
  }

  function Encode(v: Value): Bytes
    decreases v, 0
  {
    match v
    case Int(n) => [CHAR_i] + IntText(n) + [CHAR_e]
    case Str(s) => EncodeStr(s)
    case List(items) => [CHAR_l] + EncodeItems(items) + [CHAR_e]
    case Dict(entries) =>
      SortKeepsMembers(Keys(entries));
      [CHAR_d] + EncodeKeys(SortedKeys(entries), entries) + [CHAR_e]
  }

  function EncodeItems(items: seq<Value>): Bytes
    decreases items, 0
  {
    if items == [] then [] else Encode(items[0]) + EncodeItems(items[1..])
  }

  function EncodeKeys(keys: seq<Bytes>, entries: seq<Entry>): Bytes
    requires forall k :: k in keys ==> k in Keys(entries)
    decreases entries, |keys|
  {
    if keys == [] then [] else
    var value := Lookup(entries, keys[0]);
    EncodeStr(keys[0]) + Encode(value) + EncodeKeys(keys[1..], entries)
  }

  /** The value with every dictionary in key order. */
  function Canon(v: Value): Value
    decreases v, 0
  {
    match v
    case Int(_) => v
    case Str(_) => v
    case List(items) => List(CanonItems(items))
    case Dict(entries) =>
      SortKeepsMembers(Keys(entries));
      Dict(CanonKeys(SortedKeys(entries), entries))
  }

  function CanonItems(items: seq<Value>): (r: seq<Value>)
    ensures |r| == |items| && forall i :: 0 <= i < |r| ==> r[i] == Canon(items[i])
    decreases items, 0
  {
    if items == [] then [] else [Canon(items[0])] + CanonItems(items[1..])
  }

  function CanonKeys(keys: seq<Bytes>, entries: seq<Entry>): (r: seq<Entry>)
    requires forall k :: k in keys ==> k in Keys(entries)
    ensures |r| == |keys|
    ensures forall i :: 0 <= i < |r| ==> r[i] == Entry(keys[i], Canon(Lookup(entries, keys[i])))
    decreases entries, |keys|
  {
    if keys == [] then [] else
    var value := Lookup(entries, keys[0]);
    [Entry(keys[0], Canon(value))] + CanonKeys(keys[1..], entries)
  }

  // The strict decoder.

  function DecodeStr(b: Bytes): Option<(Bytes, Bytes)> {
    match ReadCanonical(b)
    case None => None
    case Some((n, rest)) =>
      if rest != [] && rest[0] == COLON && n <= |rest| - 1
      then Some((rest[1..n + 1], rest[n + 1..])) else None
  }

  function DecodeInt(b: Bytes): Option<(int, Bytes)> {
    var negative := b != [] && b[0] == MINUS;
    match ReadCanonical(if negative then b[1..] else b)
    case None => None
    case Some((n, rest)) =>
      var magnitude: int := n;
      if rest != [] && rest[0] == CHAR_e && !(negative && n == 0)
      then Some((if negative then -magnitude else magnitude, rest[1..])) else None
  }

  function Decode(b: Bytes): (r: Option<(Value, Bytes)>)
    ensures r.Some? ==> |r.value.1| < |b|
    decreases |b|, 0
  {
    if b == [] then None
    else if b[0] == CHAR_i then
      CanonicalRead(b[1..]);
      CanonicalRead(if |b| > 1 then b[2..] else []);
      match DecodeInt(b[1..]) case None => None case Some((n, rest)) => Some((Int(n), rest))
    else if b[0] == CHAR_l then
      match DecodeItems(b[1..]) case None => None case Some((items, rest)) => Some((List(items), rest))
    else if b[0] == CHAR_d then
      match DecodeEntries(b[1..], None) case None => None case Some((entries, rest)) => Some((Dict(entries), rest))
    else
      CanonicalRead(b);
      match DecodeStr(b) case None => None case Some((s, rest)) => Some((Str(s), rest))
  }

  function DecodeItems(b: Bytes): (r: Option<(seq<Value>, Bytes)>)
    ensures r.Some? ==> |r.value.1| < |b|
    decreases |b|, 1
  {
    if b != [] && b[0] == CHAR_e then Some(([], b[1..])) else
    match Decode(b)
    case None => None
    case Some((v, rest)) =>
      match DecodeItems(rest)
      case None => None
      case Some((items, rest')) => Some(([v] + items, rest'))
  }

  /** Keys must come in strictly increasing order, after `previous`. */
  function DecodeEntries(b: Bytes, previous: Option<Bytes>): (r: Option<(seq<Entry>, Bytes)>)
    ensures r.Some? ==> |r.value.1| < |b|
    decreases |b|, 1
  {
    if b != [] && b[0] == CHAR_e then Some(([], b[1..])) else
    CanonicalRead(b);
    match DecodeStr(b)
    case None => None
    case Some((key, rest)) =>
      if previous.Some? && !Less(previous.value, key) then None else
      match Decode(rest)
      case None => None
      case Some((v, rest')) =>
        match DecodeEntries(rest', Some(key))
        case None => None
        case Some((entries, rest'')) => Some(([Entry(key, v)] + entries, rest''))
  }

  // Reading back one string or one integer, in both directions.

  lemma StrReads(s: Bytes, rest: Bytes)
    ensures DecodeStr(EncodeStr(s) + rest) == Some((s, rest))
  {
    var tail := [COLON] + s + rest;
    assert EncodeStr(s) + rest == Digits(|s|) + tail;
    ReadsCanonical(|s|, tail);
    assert tail[1..|s| + 1] == s && tail[|s| + 1..] == rest;
  }

  lemma StrRead(b: Bytes)
    ensures match DecodeStr(b) case None => true case Some((s, rest)) => b == EncodeStr(s) + rest && |rest| < |b|
  {
    hide ReadCanonical;
    hide Digits;
    CanonicalRead(b);
    if DecodeStr(b).Some? {
      var (n, tail) := ReadCanonical(b).value;
      var (s, rest) := DecodeStr(b).value;
      ColonSplits(tail, n);
      Assoc(Digits(n) + [COLON], s, rest);
      Assoc(Digits(n), [COLON], s + rest);
    }
  }

  lemma ColonSplits(tail: Bytes, n: nat)
    requires tail != [] && tail[0] == COLON && n <= |tail| - 1
    ensures tail == [COLON] + (tail[1..n + 1] + tail[n + 1..])
  {
  }

  lemma IntReads(n: int, rest: Bytes)
    ensures DecodeInt(IntText(n) + [CHAR_e] + rest) == Some((n, rest))
  {
    hide ReadCanonical;
    hide Digits;
    var m: nat := if n < 0 then -n else n;
    var b := IntText(n) + [CHAR_e] + rest;
    var tail := [CHAR_e] + rest;
    ReadsCanonical(m, tail);
    Assoc(IntText(n), [CHAR_e], rest);
    if n < 0 {
      Assoc([MINUS], Digits(m), tail);
      assert b[1..] == Digits(m) + tail;
    } else {
      assert b[0] == Digits(m)[0];
    }
    assert tail[1..] == rest;
  }

  lemma IntRead(b: Bytes)
    ensures match DecodeInt(b)
            case None => true
            case Some((n, rest)) => b == IntText(n) + [CHAR_e] + rest && |rest| < |b|
  {
    hide ReadCanonical;
    hide Digits;
    var negative := b != [] && b[0] == MINUS;
    var digits := if negative then b[1..] else b;
    CanonicalRead(digits);
    if DecodeInt(b).Some? {
      var (m, tail) := ReadCanonical(digits).value;
      var (n, rest) := DecodeInt(b).value;
      EndSplits(tail);
      Assoc(IntText(n), [CHAR_e], rest);
      if negative {
        Assoc([MINUS], Digits(m), tail);
        assert b == [MINUS] + digits;
      }
    }
  }

  lemma EndSplits(tail: Bytes)
    requires tail != [] && tail[0] == CHAR_e
    ensures tail == [CHAR_e] + tail[1..]
  {
  }

  /** No value starts with the end marker. */
  lemma FirstByte(v: Value)
    ensures Encode(v) != [] && Encode(v)[0] != CHAR_e
    ensures v.Int? <==> Encode(v)[0] == CHAR_i
    ensures v.List? <==> Encode(v)[0] == CHAR_l
    ensures v.Dict? <==> Encode(v)[0] == CHAR_d
  {
    if v.Str? {
      assert Encode(v)[0] == Digits(|v.s|)[0];
    }
  }

  /** The decoder takes exactly the encoded value off the front, whatever follows. */
  lemma {:induction false} DecodeEncode(v: Value, rest: Bytes)
    requires Valid(v)
    ensures Decode(Encode(v) + rest) == Some((Canon(v), rest))
    decreases v, 0
  {
    hide DecodeItems;
    hide DecodeEntries;
    hide EncodeItems;
    hide EncodeKeys;
    hide DecodeInt;
    hide DecodeStr;
    hide IntText;
    var b := Encode(v) + rest;
    FirstByte(v);
    assert b[0] == Encode(v)[0];
    match v
    case Int(n) =>
      Tail(CHAR_i, IntText(n), rest);
      IntReads(n, rest);
    case Str(s) =>
      StrReads(s, rest);
    case List(items) =>
      Tail(CHAR_l, EncodeItems(items), rest);
      DecodeEncodedItems(items, rest);
    case Dict(entries) =>
      SortCorrect(Keys(entries));
      Tail(CHAR_d, EncodeKeys(SortedKeys(entries), entries), rest);
      DecodeEncodedKeys(SortedKeys(entries), entries, None, rest);
  }

  lemma Tail(first: Byte, body: Bytes, rest: Bytes)
    ensures ([first] + body + [CHAR_e] + rest)[1..] == body + [CHAR_e] + rest
    ensures ([first] + body + [CHAR_e] + rest)[0] == first
  {
  }

  lemma {:induction false} DecodeEncodedItems(items: seq<Value>, rest: Bytes)
    requires forall i :: 0 <= i < |items| ==> Valid(items[i])
    ensures DecodeItems(EncodeItems(items) + [CHAR_e] + rest) == Some((CanonItems(items), rest))
    decreases items, 0
  {
    if items == [] {
      assert ([] + [CHAR_e] + rest)[1..] == rest;
    } else {
      var after := EncodeItems(items[1..]) + [CHAR_e] + rest;
      assert EncodeItems(items) + [CHAR_e] + rest == Encode(items[0]) + after;
      FirstByte(items[0]);
      DecodeEncode(items[0], after);
      DecodeEncodedItems(items[1..], rest);
    }
  }

  lemma {:induction false} DecodeEncodedKeys(keys: seq<Bytes>, entries: seq<Entry>, previous: Option<Bytes>, rest: Bytes)
    requires forall k :: k in keys ==> k in Keys(entries)
    requires Sorted(keys) && (previous.Some? && keys != [] ==> Less(previous.value, keys[0]))
    requires forall i :: 0 <= i < |entries| ==> Valid(entries[i].value)
    ensures DecodeEntries(EncodeKeys(keys, entries) + [CHAR_e] + rest, previous)
            == Some((CanonKeys(keys, entries), rest))
    decreases entries, |keys|
  {
    if keys == [] {
      assert ([] + [CHAR_e] + rest)[1..] == rest;
    } else {
      hide Decode;
      hide Encode;
      hide Valid;
      hide Canon;
      hide DecodeStr;
      var value := Lookup(entries, keys[0]);
      var later := EncodeKeys(keys[1..], entries) + [CHAR_e] + rest;
      DecodeEncode(value, later);
      DecodeEncodedKeys(keys[1..], entries, Some(keys[0]), rest);
      DecodeOneEntry(keys[0], value, later, previous);
      assert EncodeKeys(keys, entries) + [CHAR_e] + rest == EncodeStr(keys[0]) + (Encode(value) + later) by {
        Assoc4(EncodeStr(keys[0]), Encode(value), EncodeKeys(keys[1..], entries), [CHAR_e] + rest);
        Assoc(EncodeKeys(keys, entries), [CHAR_e], rest);
        Assoc(EncodeKeys(keys[1..], entries), [CHAR_e], rest);
      }
    }
  }

  lemma Assoc4(a: Bytes, b: Bytes, c: Bytes, d: Bytes)
    ensures a + b + c + d == a + (b + (c + d))
  {
  }

  /** One step of the entry loop on a key and a value that follows it. */
  lemma DecodeOneEntry(key: Bytes, value: Value, later: Bytes, previous: Option<Bytes>)
    requires previous.Some? ==> Less(previous.value, key)
    requires Decode(Encode(value) + later) == Some((Canon(value), later))
    requires DecodeEntries(later, Some(key)).Some?
    ensures var (entries, rest) := DecodeEntries(later, Some(key)).value;
            DecodeEntries(EncodeStr(key) + (Encode(value) + later), previous)
            == Some(([Entry(key, Canon(value))] + entries, rest))
  {
    hide Decode;
    hide Encode;
    hide Canon;
    hide DecodeStr;
    var b := EncodeStr(key) + (Encode(value) + later);
    assert b[0] == Digits(|key|)[0];
    StrReads(key, Encode(value) + later);
  }

  /** Encodings are uniquely readable: injective up to key order, and prefix-free. */
  lemma PrefixFree(v: Value, w: Value, rest: Bytes, rest': Bytes)
    requires Valid(v) && Valid(w) && Encode(v) + rest == Encode(w) + rest'
    ensures Canon(v) == Canon(w) && rest == rest'
  {
    DecodeEncode(v, rest);
    DecodeEncode(w, rest');
  }

  // Equality of Python values: dictionaries compare without regard to insertion order.

  ghost predicate Equal(v: Value, w: Value)
    decreases v
  {
    match v
    case Int(n) => w == Int(n)
    case Str(s) => w == Str(s)
    case List(items) =>
      w.List? && |items| == |w.items| && forall i :: 0 <= i < |items| ==> Equal(items[i], w.items[i])
    case Dict(entries) =>
      && w.Dict? && (forall k :: k in Keys(entries) <==> k in Keys(w.entries))
      && forall i :: 0 <= i < |entries| ==>
                       entries[i].key in Keys(w.entries) && Equal(entries[i].value, Lookup(w.entries, entries[i].key))
  }

  lemma {:induction false} LookupEntry(entries: seq<Entry>, i: nat)
    requires i < |entries| && Distinct(Keys(entries))
    ensures entries[i].key in Keys(entries) && Lookup(entries, entries[i].key) == entries[i].value
  {
    assert Keys(entries)[i] == entries[i].key;
    var v := Lookup(entries, entries[i].key);
    var j :| 0 <= j < |entries| && entries[j] == Entry(entries[i].key, v);
    assert Keys(entries)[j] == Keys(entries)[i];
  }

  /** Equal values encode alike, whatever their insertion orders. */
  lemma {:induction false} EqualEncodesAlike(v: Value, w: Value)
    requires Valid(v) && Valid(w) && Equal(v, w)
    ensures Encode(v) == Encode(w)
    decreases v, 0
  {
    match v
    case Int(_) =>
    case Str(_) =>
    case List(items) => EqualItems(items, w.items);
    case Dict(entries) =>
      SortCorrect(Keys(entries));
      SortCorrect(Keys(w.entries));
      SortedUnique(SortedKeys(entries), SortedKeys(w.entries));
      EqualKeys(SortedKeys(entries), entries, w.entries);
  }

  lemma {:induction false} EqualItems(items: seq<Value>, items': seq<Value>)
    requires |items| == |items'|
    requires forall i :: 0 <= i < |items| ==> Valid(items[i]) && Valid(items'[i]) && Equal(items[i], items'[i])
    ensures EncodeItems(items) == EncodeItems(items')
    decreases items, 0
  {
    if items != [] {
      EqualEncodesAlike(items[0], items'[0]);
      EqualItems(items[1..], items'[1..]);
    }
  }

  lemma {:induction false} EqualKeys(keys: seq<Bytes>, entries: seq<Entry>, entries': seq<Entry>)
    requires Distinct(Keys(entries))
    requires forall k :: k in keys ==> k in Keys(entries) && k in Keys(entries')
    requires forall i :: 0 <= i < |entries| ==> Valid(entries[i].value)
    requires forall i :: 0 <= i < |entries'| ==> Valid(entries'[i].value)
    requires forall i :: 0 <= i < |entries| ==>
               entries[i].key in Keys(entries') && Equal(entries[i].value, Lookup(entries', entries[i].key))
    ensures EncodeKeys(keys, entries) == EncodeKeys(keys, entries')
    decreases entries, |keys|
  {
    if keys != [] {
      var value := Lookup(entries, keys[0]);
      var i :| 0 <= i < |entries| && entries[i] == Entry(keys[0], value);
      var value' := Lookup(entries', keys[0]);
      assert Valid(value) && Valid(value') && Equal(value, value');
      EqualEncodesAlike(value, value');
      EqualKeys(keys[1..], entries, entries');
    }
  }

  lemma {:induction false} SameCanonIsEqual(v: Value, w: Value)
    requires Valid(v) && Valid(w) && Canon(v) == Canon(w)
    ensures Equal(v, w)
    decreases v
  {
    match v
    case Int(_) =>
    case Str(_) =>
    case List(items) =>
      forall i | 0 <= i < |items| ensures Equal(items[i], w.items[i]) {
        assert Canon(items[i]) == CanonItems(items)[i] == CanonItems(w.items)[i] == Canon(w.items[i]);
        SameCanonIsEqual(items[i], w.items[i]);
      }
    case Dict(entries) =>
      var keys, keys' := SortedKeys(entries), SortedKeys(w.entries);
      SortCorrect(Keys(entries));
      SortCorrect(Keys(w.entries));
      var canon, canon' := CanonKeys(keys, entries), CanonKeys(keys', w.entries);
      assert canon == canon';
      assert forall i :: 0 <= i < |keys| ==> keys[i] == canon[i].key == canon'[i].key == keys'[i];
      assert keys == keys';
      forall i | 0 <= i < |entries|
        ensures entries[i].key in Keys(w.entries) && Equal(entries[i].value, Lookup(w.entries, entries[i].key))
      {
        LookupEntry(entries, i);
        var key := entries[i].key;
        assert key in keys;
        var j :| 0 <= j < |keys| && keys[j] == key;
        var value' := Lookup(w.entries, key);
        assert canon[j] == Entry(key, Canon(entries[i].value)) && canon'[j] == Entry(key, Canon(value'));
        SameCanonIsEqual(entries[i].value, value');
      }
  }

  /** Two values have the same encoding exactly when they are equal. */
  lemma EncodeIsCanonical(v: Value, w: Value)
    requires Valid(v) && Valid(w)
    ensures Encode(v) == Encode(w) <==> Equal(v, w)
  {
    if Encode(v) == Encode(w) {
      PrefixFree(v, w, [], []);
      SameCanonIsEqual(v, w);
    }
    if Equal(v, w) {
      EqualEncodesAlike(v, w);
    }
  }

  // What the decoder accepts is what the encoder prints.

  ghost predicate InOrder(entries: seq<Entry>, previous: Option<Bytes>) {
    && Sorted(Keys(entries))
    && (previous.Some? && entries != [] ==> Less(previous.value, entries[0].key))
  }

  function EncodeEntries(entries: seq<Entry>): Bytes
    decreases entries, 0
  {
    if entries == [] then []
    else EncodeStr(entries[0].key) + Encode(entries[0].value) + EncodeEntries(entries[1..])
  }

  lemma {:induction false} EncodeDecode(b: Bytes)
    requires Decode(b).Some?
    ensures var (v, rest) := Decode(b).value; Valid(v) && b == Encode(v) + rest
    decreases |b|, 0
  {
    hide DecodeItems;
    hide DecodeEntries;
    hide DecodeStr;
    hide DecodeInt;
    hide EncodeItems;
    hide EncodeEntries;
    hide EncodeKeys;
    hide IntText;
    if b[0] == CHAR_i {
      IntRead(b[1..]);
      var (n, rest) := DecodeInt(b[1..]).value;
      Rejoin(b, CHAR_i, IntText(n), rest);
    } else if b[0] == CHAR_l {
      EncodeDecodedItems(b[1..]);
      var (items, rest) := DecodeItems(b[1..]).value;
      Rejoin(b, CHAR_l, EncodeItems(items), rest);
    } else if b[0] == CHAR_d {
      EncodeDecodedEntries(b[1..], None);
      var (entries, rest) := DecodeEntries(b[1..], None).value;
      SortedEntries(entries);
      Rejoin(b, CHAR_d, EncodeEntries(entries), rest);
    } else {
      StrRead(b);
    }
  }

  lemma Rejoin(b: Bytes, first: Byte, body: Bytes, rest: Bytes)
    requires b != [] && b[0] == first && b[1..] == body + [CHAR_e] + rest
    ensures b == [first] + body + [CHAR_e] + rest
  {
    assert b == [first] + b[1..];
  }

  lemma {:induction false} EncodeDecodedItems(b: Bytes)
    requires DecodeItems(b).Some?
    ensures var (items, rest) := DecodeItems(b).value;
            && (forall i :: 0 <= i < |items| ==> Valid(items[i]))
            && b == EncodeItems(items) + [CHAR_e] + rest
    decreases |b|, 1
  {
    if b != [] && b[0] == CHAR_e {
      assert b == [] + [CHAR_e] + b[1..];
    } else {
      hide Decode;
      hide Encode;
      hide Valid;
      EncodeDecode(b);
      var (v, after) := Decode(b).value;
      EncodeDecodedItems(after);
      var (items, rest) := DecodeItems(after).value;
      ItemsCons(v, items, rest);
    }
  }

  lemma ItemsCons(v: Value, items: seq<Value>, rest: Bytes)
    ensures Encode(v) + (EncodeItems(items) + [CHAR_e] + rest) == EncodeItems([v] + items) + [CHAR_e] + rest
  {
    hide Encode;
    assert ([v] + items)[1..] == items;
    Assoc4(Encode(v), EncodeItems(items), [CHAR_e], rest);
    Assoc(EncodeItems(items), [CHAR_e], rest);
  }

  lemma EntriesCons(e: Entry, entries: seq<Entry>, rest: Bytes)
    ensures EncodeStr(e.key) + (Encode(e.value) + (EncodeEntries(entries) + [CHAR_e] + rest))
            == EncodeEntries([e] + entries) + [CHAR_e] + rest
  {
    hide Encode;
    hide EncodeStr;
    assert ([e] + entries)[1..] == entries;
    Assoc4(EncodeStr(e.key), Encode(e.value), EncodeEntries(entries), [CHAR_e] + rest);
    Assoc(EncodeEntries(entries), [CHAR_e], rest);
    Assoc(EncodeEntries([e] + entries), [CHAR_e], rest);
  }

  lemma {:induction false} EncodeDecodedEntries(b: Bytes, previous: Option<Bytes>)
    requires DecodeEntries(b, previous).Some?
    ensures var (entries, rest) := DecodeEntries(b, previous).value;
            && (forall i :: 0 <= i < |entries| ==> Valid(entries[i].value))
            && InOrder(entries, previous)
            && b == EncodeEntries(entries) + [CHAR_e] + rest
    decreases |b|, 1
  {
    if b != [] && b[0] == CHAR_e {
      assert b == [] + [CHAR_e] + b[1..];
    } else {
      hide Decode;
      hide Encode;
      hide Valid;
      hide DecodeStr;
      StrRead(b);
      var (key, after) := DecodeStr(b).value;
      EncodeDecode(after);
      var (v, after') := Decode(after).value;
      EncodeDecodedEntries(after', Some(key));
      var (entries, rest) := DecodeEntries(after', Some(key)).value;
      EntriesCons(Entry(key, v), entries, rest);
      PrependSorted(Entry(key, v), entries);
    }
  }

  lemma PrependSorted(first: Entry, entries: seq<Entry>)
    requires InOrder(entries, Some(first.key))
    ensures Sorted(Keys([first] + entries))
  {
    var keys := Keys([first] + entries);
    forall i, j | 0 <= i < j < |keys| ensures Less(keys[i], keys[j]) {
      assert keys[j] == Keys(entries)[j - 1];
      if i > 0 {
        assert keys[i] == Keys(entries)[i - 1];
      } else if j > 1 {
        LessTransitive(first.key, entries[0].key, keys[j]);
      }
    }
  }

  /** A dictionary whose items are in key order is printed item by item. */
  lemma SortedEntries(entries: seq<Entry>)
    requires Sorted(Keys(entries))
    ensures Distinct(Keys(entries)) && Encode(Dict(entries)) == [CHAR_d] + EncodeEntries(entries) + [CHAR_e]
  {
    SortOfSorted(Keys(entries));
    SortedIsDistinct(Keys(entries));
    KeysFrom(entries, 0);
    assert Keys(entries)[0..] == Keys(entries) && entries[0..] == entries;
  }

  lemma {:induction false} KeysFrom(entries: seq<Entry>, i: nat)
    requires i <= |entries| && Distinct(Keys(entries))
    ensures EncodeKeys(Keys(entries)[i..], entries) == EncodeEntries(entries[i..])
    decreases |entries| - i
  {
    if i < |entries| {
      LookupEntry(entries, i);
      KeysFrom(entries, i + 1);
      assert Keys(entries)[i..][1..] == Keys(entries)[i + 1..];
      assert entries[i..][1..] == entries[i + 1..];
    }
  }

  // What the encoder prints, spelled out.

  /** Read in the order in which they are printed, the keys of a dictionary increase in byte order. */
  lemma KeysArePrintedInOrder(entries: seq<Entry>, rest: Bytes) returns (printed: seq<Entry>)
    requires Valid(Dict(entries))
    ensures Decode(Encode(Dict(entries)) + rest) == Some((Dict(printed), rest))
    ensures |printed| == |entries| && forall key :: key in Keys(printed) <==> key in Keys(entries)
    ensures forall i, j :: 0 <= i < j < |printed| ==> InByteOrder(printed[i].key, printed[j].key)
  {
    DecodeEncode(Dict(entries), rest);
    hide Decode;
    hide Encode;
    hide Lookup;
    SortCorrect(Keys(entries));
    SortLength(Keys(entries));
    SortKeepsMembers(Keys(entries));
    printed := CanonKeys(SortedKeys(entries), entries);
    assert Keys(printed) == SortedKeys(entries);
    forall i, j | 0 <= i < j < |printed| ensures InByteOrder(printed[i].key, printed[j].key) {
      LessIsByteOrder(printed[i].key, printed[j].key);
    }
  }

  ghost predicate InByteOrder(a: Bytes, b: Bytes) {
    exists k :: 0 <= k <= |a| && k < |b| && a[..k] == b[..k] && (k == |a| || a[k] < b[k])
  }

  lemma {:induction false} SortLength(keys: seq<Bytes>)
    ensures |Sort(keys)| == |keys|
  {
    if keys != [] {
      SortLength(keys[1..]);
      InsertLength(keys[0], Sort(keys[1..]));
    }
  }

  lemma {:induction false} InsertLength(key: Bytes, keys: seq<Bytes>)
    ensures |Insert(key, keys)| == |keys| + 1
  {
    if keys != [] && !Less(key, keys[0]) {
      InsertLength(key, keys[1..]);
    }
  }

  lemma PrintedScalars()
    ensures Encode(Int(-1204)) == Ascii("i-1204e") && Encode(Int(0)) == Ascii("i0e")
    ensures Encode(Str(Ascii("spam"))) == Ascii("4:spam")
  {
    PrintedNumber();
    hide Digits;
    assert Ascii("i-1204e") == [105, 45, 49, 50, 48, 52, 101] && Ascii("i0e") == [105, 48, 101];
    assert Ascii("4:spam") == [52, 58] + Ascii("spam");
  }

  lemma PrintedNumber()
    ensures Digits(1204) == [49, 50, 48, 52] && Digits(0) == [48] && Digits(4) == [52]
  {
    assert Digits(12) == [49, 50] && Digits(120) == [49, 50, 48];
  }

  lemma PrintedList()
    ensures Encode(List([Int(7), List([])])) == Ascii("li7elee")
  {
    var items := [Int(7), List([])];
    assert items[1..] == [List([])] && [List([])][1..] == [];
    assert EncodeItems([]) == [];
    assert Encode(List([])) == [CHAR_l] + [] + [CHAR_e] == Ascii("le");
    assert Encode(Int(7)) == Ascii("i7e");
    assert EncodeItems([List([])]) == Ascii("le") + [];
    assert EncodeItems(items) == Ascii("i7e") + (Ascii("le") + []);
  }

  lemma PrintedDictionary()
    ensures Encode(Dict([Entry(Ascii("b"), Int(2)), Entry(Ascii("a"), Int(1))])) == Ascii("d1:ai1e1:bi2ee")
  {
    hide Ascii;
    hide Less;
    hide Encode;
    hide EncodeStr;
    PrintedParts();
    TwoEntries(Entry([97], Int(1)), Entry([98], Int(2)));
    var one, two: Bytes := [49, 58, 97] + [105, 49, 101], [49, 58, 98] + [105, 50, 101];
    assert [CHAR_d] + (one + two) + [CHAR_e] == [100, 49, 58, 97, 105, 49, 101, 49, 58, 98, 105, 50, 101, 101];
  }

  /** Two entries are printed in key order though they were inserted the other way round. */
  lemma TwoEntries(a: Entry, b: Entry)
    requires Less(a.key, b.key)
    ensures Encode(Dict([b, a]))
            == [CHAR_d] + (EncodeStr(a.key) + Encode(a.value) + (EncodeStr(b.key) + Encode(b.value))) + [CHAR_e]
  {
    hide EncodeStr;
    hide Less;
    var entries, keys := [b, a], [a.key, b.key];
    TwoSorted(a.key, b.key);
    LessIrreflexive(a.key);
    assert Keys(entries) == [b.key, a.key];
    hide Sort;
    assert entries[1..][0] == a;
    assert Lookup(entries, a.key) == a.value && Lookup(entries, b.key) == b.value;
    assert keys[1..] == [b.key] && EncodeKeys([], entries) == [];
    assert EncodeKeys([b.key], entries) == EncodeStr(b.key) + Encode(b.value) + [];
    assert EncodeKeys(keys, entries) == EncodeStr(a.key) + Encode(a.value) + (EncodeStr(b.key) + Encode(b.value));
  }

  lemma PrintedParts()
    ensures Ascii("a") == [97] && Ascii("b") == [98] && Less([97], [98])
    ensures Encode(Int(1)) == [105, 49, 101] && Encode(Int(2)) == [105, 50, 101]
    ensures EncodeStr([97]) == [49, 58, 97] && EncodeStr([98]) == [49, 58, 98]
    ensures Ascii("d1:ai1e1:bi2ee") == [100, 49, 58, 97, 105, 49, 101, 49, 58, 98, 105, 50, 101, 101]
  {
  }

  lemma TwoSorted(a: Bytes, b: Bytes)
    requires Less(a, b)
    ensures Sort([b, a]) == [a, b]
  {
    LessIrreflexive(a);
    assert !Less(b, a) by {
      if Less(b, a) {
        LessTransitive(a, b, a);
      }
    }
    assert [b, a][1..] == [a] && Sort([]) == [];
    assert Sort([a]) == Insert(a, []) == [a];
    assert Insert(b, [a]) == [a] + Insert(b, []);
  }
}
