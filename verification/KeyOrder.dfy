/** Byte strings in lexicographic order, and sorting a list of distinct ones. */
module KeyOrder {
  import opened Octets

  predicate Less(a: Bytes, b: Bytes) {
    b != [] && (a == [] || a[0] < b[0] || (a[0] == b[0] && Less(a[1..], b[1..])))
  }

  /** Byte order: at the first difference a has the smaller byte, or a ends there. */
  lemma {:induction false} LessIsByteOrder(a: Bytes, b: Bytes)
    ensures Less(a, b) <==>
            exists k :: 0 <= k <= |a| && k < |b| && a[..k] == b[..k] && (k == |a| || a[k] < b[k])
  {
    if a == [] {
      assert b != [] ==> a[..0] == b[..0];
    } else if b != [] {
      LessIsByteOrder(a[1..], b[1..]);
      if a[0] == b[0] && Less(a[1..], b[1..]) {
        var k :| 0 <= k <= |a[1..]| && k < |b[1..]| && a[1..][..k] == b[1..][..k]
                 && (k == |a[1..]| || a[1..][k] < b[1..][k]);
        assert a[..k + 1] == [a[0]] + a[1..][..k] && b[..k + 1] == [b[0]] + b[1..][..k];
      } else if a[0] < b[0] {
        assert a[..0] == b[..0];
      }
      if k :| 0 <= k <= |a| && k < |b| && a[..k] == b[..k] && (k == |a| || a[k] < b[k]) {
        if 0 < k {
          assert a[0] == a[..k][0] && b[0] == b[..k][0];
          assert a[1..][..k - 1] == a[..k][1..] && b[1..][..k - 1] == b[..k][1..];
        }
      }
    }
  }

  lemma {:induction false} LessTotal(a: Bytes, b: Bytes)
    ensures a == b || Less(a, b) || Less(b, a)
  {
    if a != [] && b != [] && a[0] == b[0] {
      LessTotal(a[1..], b[1..]);
      assert a == [a[0]] + a[1..] && b == [b[0]] + b[1..];
    }
  }

  lemma {:induction false} LessIrreflexive(a: Bytes)
    ensures !Less(a, a)
  {
    if a != [] {
      LessIrreflexive(a[1..]);
    }
  }

  lemma {:induction false} LessTransitive(a: Bytes, b: Bytes, c: Bytes)
    requires Less(a, b) && Less(b, c)
    ensures Less(a, c)
  {
    if a != [] && a[0] == b[0] && b[0] == c[0] {
      LessTransitive(a[1..], b[1..], c[1..]);
    }
  }

  predicate Sorted(keys: seq<Bytes>) {
    forall i, j :: 0 <= i < j < |keys| ==> Less(keys[i], keys[j])
  }

  function Insert(key: Bytes, keys: seq<Bytes>): seq<Bytes> {
    if keys == [] then [key]
    else if Less(key, keys[0]) then [key] + keys
    else [keys[0]] + Insert(key, keys[1..])
  }

  function Sort(keys: seq<Bytes>): seq<Bytes> {
    if keys == [] then [] else Insert(keys[0], Sort(keys[1..]))
  }

  lemma {:induction false} InsertMembers(key: Bytes, keys: seq<Bytes>)
    ensures forall k :: k in Insert(key, keys) <==> k == key || k in keys
  {
    if keys != [] && !Less(key, keys[0]) {
      InsertMembers(key, keys[1..]);
      assert forall k :: k in keys <==> k == keys[0] || k in keys[1..];
    }
  }

  lemma {:induction false} InsertSorted(key: Bytes, keys: seq<Bytes>)
    requires Sorted(keys) && key !in keys
    ensures Sorted(Insert(key, keys))
  {
    if keys != [] {
      LessTotal(key, keys[0]);
      if Less(key, keys[0]) {
        forall j | 0 <= j < |keys| ensures Less(key, keys[j]) {
          if j > 0 {
            LessTransitive(key, keys[0], keys[j]);
          }
        }
      } else {
        assert key !in keys[1..];
        InsertSorted(key, keys[1..]);
        InsertMembers(key, keys[1..]);
        forall k | k in Insert(key, keys[1..]) ensures Less(keys[0], k) {
        }
      }
    }
  }

  lemma {:induction false} SortCorrect(keys: seq<Bytes>)
    requires Distinct(keys)
    ensures Sorted(Sort(keys)) && forall k :: k in Sort(keys) <==> k in keys
  {
    if keys != [] {
      SortCorrect(keys[1..]);
      assert keys[0] !in keys[1..];
      assert forall k :: k in keys <==> k == keys[0] || k in keys[1..];
      InsertSorted(keys[0], Sort(keys[1..]));
      InsertMembers(keys[0], Sort(keys[1..]));
    }
  }

  /** A sorted list is determined by its members. */
  lemma {:induction false} SortedUnique(a: seq<Bytes>, b: seq<Bytes>)
    requires Sorted(a) && Sorted(b) && forall k :: k in a <==> k in b
    ensures a == b
  {
    assert (a != [] ==> a[0] in b) && (b != [] ==> b[0] in a);
    if a != [] {
      SameHead(a, b);
      SameHead(b, a);
      LessTotal(a[0], b[0]);
      forall k ensures k in a[1..] <==> k in b[1..] {
        LessIrreflexive(a[0]);
        assert k in a <==> k == a[0] || k in a[1..];
        assert k in b <==> k == b[0] || k in b[1..];
      }
      SortedUnique(a[1..], b[1..]);
      assert a == [a[0]] + a[1..] && b == [b[0]] + b[1..];
    }
  }

  lemma SameHead(a: seq<Bytes>, b: seq<Bytes>)
    requires Sorted(a) && Sorted(b) && a != [] && b != [] && forall k :: k in a <==> k in b
    ensures !Less(b[0], a[0])
  {
    assert b[0] in a;
    if Less(b[0], a[0]) {
      var i :| 0 <= i < |a| && a[i] == b[0];
      if i > 0 {
        LessTransitive(b[0], a[0], a[i]);
      }
      LessIrreflexive(b[0]);
    }
  }

  lemma SortedIsDistinct(keys: seq<Bytes>)
    requires Sorted(keys)
    ensures Distinct(keys)
  {
    forall i, j | 0 <= i < j < |keys| ensures keys[i] != keys[j] {
      LessIrreflexive(keys[i]);
    }
  }

  lemma SortOfSorted(keys: seq<Bytes>)
    requires Sorted(keys)
    ensures Sort(keys) == keys
  {
    SortedIsDistinct(keys);
    SortCorrect(keys);
    SortedUnique(Sort(keys), keys);
  }
}
