/** Same-length prefix relocation (tools/relocate-prefix.py). */
module Relocate {
  import opened Octets

  /** data.replace(from, into) for a nonempty `from`: leftmost occurrences first, none overlapping. */
  function Replace(data: Bytes, from: Bytes, into: Bytes): Bytes
    requires from != []
  {
    if |data| < |from| then data
    else if from <= data then into + Replace(data[|from|..], from, into)
    else [data[0]] + Replace(data[1..], from, into)
  }

  /** The rewrite of one file. Replacing the empty string by the empty string changes nothing. */
  function Rewritten(data: Bytes, from: Bytes, into: Bytes): Bytes {
    if from == [] then data else Replace(data, from, into)
  }

  ghost predicate OccursAt(part: Bytes, data: Bytes, p: nat) {
    p + |part| <= |data| && data[p..p + |part|] == part
  }

  ghost predicate Occurs(part: Bytes, data: Bytes) {
    exists p :: OccursAt(part, data, p)
  }

  /** Where the replaced occurrence that covers byte i starts, if one covers it. */
  function Block(data: Bytes, from: Bytes, i: nat): Option<nat>
    requires from != [] && i < |data|
    decreases |data|
  {
    if |data| < |from| then None
    else if from <= data then
      if i < |from| then Some(0)
      else match Block(data[|from|..], from, i - |from|) case None => None case Some(m) => Some(m + |from|)
    else
      if i == 0 then None
      else match Block(data[1..], from, i - 1) case None => None case Some(m) => Some(m + 1)
  }

  /** Length and every byte: inside a replaced occurrence the new prefix, outside the old contents. */
  lemma {:induction false} ReplaceBytes(data: Bytes, from: Bytes, into: Bytes, i: nat)
    requires from != [] && |from| == |into| && i < |data|
    ensures |Replace(data, from, into)| == |data|
    ensures match Block(data, from, i)
            case None => Replace(data, from, into)[i] == data[i]
            case Some(m) => m <= i < m + |from| && OccursAt(from, data, m) && Replace(data, from, into)[i] == into[i - m]
    decreases |data|
  {
    hide OccursAt;
    ReplaceLength(data, from, into);
    if |data| < |from| {
    } else if from <= data {
      var rest := data[|from|..];
      ReplaceLength(rest, from, into);
      PrefixOccurs(from, data);
      if |from| <= i {
        ReplaceBytes(rest, from, into, i - |from|);
        if Block(rest, from, i - |from|).Some? {
          ShiftOccurrence(from, data, |from|, Block(rest, from, i - |from|).value);
        }
      }
    } else {
      var rest := data[1..];
      ReplaceLength(rest, from, into);
      if i > 0 {
        ReplaceBytes(rest, from, into, i - 1);
        if Block(rest, from, i - 1).Some? {
          ShiftOccurrence(from, data, 1, Block(rest, from, i - 1).value);
        }
      }
    }
  }

  lemma ShiftOccurrence(part: Bytes, data: Bytes, shift: nat, p: nat)
    requires shift <= |data|
    ensures OccursAt(part, data[shift..], p) <==> OccursAt(part, data, p + shift)
  {
    if p + shift + |part| <= |data| {
      assert data[shift..][p..p + |part|] == data[p + shift..p + shift + |part|];
    }
  }

  lemma {:induction false} ReplaceLength(data: Bytes, from: Bytes, into: Bytes)
    requires from != [] && |from| == |into|
    ensures |Replace(data, from, into)| == |data|
  {
    if |data| < |from| {
    } else if from <= data {
      ReplaceLength(data[|from|..], from, into);
    } else {
      ReplaceLength(data[1..], from, into);
    }
  }

  /** Leftmost: no occurrence starts outside the replaced ones. */
  lemma {:induction false} EveryOccurrenceIsCovered(data: Bytes, from: Bytes, p: nat)
    requires from != [] && OccursAt(from, data, p)
    ensures Block(data, from, p).Some?
    decreases |data|
  {
    assert p == 0 ==> data[0..|from|] == data[..|from|];
    if from <= data {
      if |from| <= p {
        ShiftOccurrence(from, data, |from|, p - |from|);
        EveryOccurrenceIsCovered(data[|from|..], from, p - |from|);
      }
    } else if p > 0 {
      ShiftOccurrence(from, data, 1, p - 1);
      EveryOccurrenceIsCovered(data[1..], from, p - 1);
    }
  }

  /** Replaced occurrences do not overlap: one that covers i covers exactly its own bytes. */
  lemma {:induction false} BlocksAreDisjoint(data: Bytes, from: Bytes, i: nat, j: nat)
    requires from != [] && i < |data| && Block(data, from, i).Some?
    requires Block(data, from, i).value <= j < Block(data, from, i).value + |from|
    ensures j < |data| && Block(data, from, j) == Block(data, from, i)
    decreases |data|
  {
    if from <= data {
      if |from| <= i {
        BlocksAreDisjoint(data[|from|..], from, i - |from|, j - |from|);
      }
    } else {
      BlocksAreDisjoint(data[1..], from, i - 1, j - 1);
    }
  }

  // Relocating back.

  /** Where the first occurrence of `from` starts; the length of the data if there is none. */
  function Lead(data: Bytes, from: Bytes): (m: nat)
    requires from != []
    ensures m <= |data|
  {
    if |data| < |from| then |data| else if from <= data then 0 else 1 + Lead(data[1..], from)
  }

  /**
   The bytes up to the first occurrence of `from`, which are copied, begin the new prefix, and the new prefix
   goes on with its own first bytes. When no occurrence is that near, the data begins with the new prefix.
   */
  predicate StrayAtFront(data: Bytes, from: Bytes, into: Bytes)
    requires from != [] && |from| == |into| <= |data|
  {
    var m := Min(Lead(data, from), |into|);
    data[..m] == into[..m] && into[m..] == into[..|into| - m]
  }

  /** No byte outside the replaced occurrences of the input is the start of a stray new prefix. */
  predicate NoStray(data: Bytes, from: Bytes, into: Bytes)
    requires from != [] && |from| == |into|
  {
    if |data| < |from| then true
    else if from <= data then NoStray(data[|from|..], from, into)
    else !StrayAtFront(data, from, into) && NoStray(data[1..], from, into)
  }

  lemma {:induction false} LeadIsFirst(data: Bytes, from: Bytes, p: nat)
    requires from != []
    ensures Lead(data, from) < |data| ==> OccursAt(from, data, Lead(data, from))
    ensures p < Lead(data, from) ==> !OccursAt(from, data, p)
  {
    if |data| < |from| {
    } else if from <= data {
      PrefixOccurs(from, data);
    } else {
      LeadIsFirst(data[1..], from, if p == 0 then 0 else p - 1);
      ShiftOccurrence(from, data, 1, Lead(data[1..], from));
      if p > 0 {
        ShiftOccurrence(from, data, 1, p - 1);
      }
    }
  }

  /** Up to the first occurrence the output is the input, and there the new prefix starts. */
  lemma {:induction false} ReplaceLead(data: Bytes, from: Bytes, into: Bytes)
    requires from != [] && |from| == |into|
    ensures var out, m := Replace(data, from, into), Lead(data, from);
            && |out| == |data| && out[..m] == data[..m]
            && (m < |data| ==> m + |into| <= |data| && out[m..m + |into|] == into)
  {
    ReplaceLength(data, from, into);
    if |from| <= |data| && !(from <= data) {
      var out, m := Replace(data, from, into), Lead(data[1..], from);
      ReplaceLead(data[1..], from, into);
      assert out[1..] == Replace(data[1..], from, into);
      assert out[..m + 1] == [data[0]] + out[1..][..m] && data[..m + 1] == [data[0]] + data[1..][..m];
      if m + 1 < |data| {
        assert out[m + 1..m + 1 + |into|] == out[1..][m..m + |into|];
      }
    }
  }

  /** Copied bytes up to the lead, then as much of the new prefix as fits: the first j bytes of the output. */
  function Front(data: Bytes, from: Bytes, into: Bytes, j: nat): Bytes
    requires from != [] && j <= |into| && j <= |data|
  {
    var m := Min(Lead(data, from), j);
    data[..m] + into[..j - m]
  }

  lemma FrontOfReplace(data: Bytes, from: Bytes, into: Bytes, j: nat)
    requires from != [] && |from| == |into| && j <= |into| && j <= |data|
    ensures j <= |Replace(data, from, into)| && Replace(data, from, into)[..j] == Front(data, from, into, j)
  {
    hide Replace;
    hide Lead;
    ReplaceLead(data, from, into);
    CopiedThenNew(Replace(data, from, into), data, into, Lead(data, from), j, Min(Lead(data, from), j));
  }

  lemma CopiedThenNew(out: Bytes, data: Bytes, into: Bytes, lead: nat, j: nat, m: nat)
    requires lead <= |data| == |out| && j <= |into| && j <= |data| && m == Min(lead, j)
    requires out[..lead] == data[..lead]
    requires lead < |data| ==> lead + |into| <= |data| && out[lead..lead + |into|] == into
    ensures out[..j] == data[..m] + into[..j - m]
  {
    forall k | 0 <= k < j ensures out[k] == (data[..m] + into[..j - m])[k] {
      if k < m {
        assert out[k] == out[..lead][k] == data[..lead][k];
      } else {
        assert out[k] == out[lead..lead + |into|][k - lead];
      }
    }
  }

  lemma EqualParts(a: Bytes, b: Bytes, whole: Bytes)
    requires |a| + |b| == |whole|
    ensures a + b == whole <==> a == whole[..|a|] && whole[|a|..] == b
  {
    assert (a + b)[..|a|] == a && (a + b)[|a|..] == b;
    assert whole == whole[..|a|] + whole[|a|..];
  }

  /** The condition on the input says exactly that the output begins with the new prefix. */
  lemma StrayMeans(data: Bytes, from: Bytes, into: Bytes)
    requires from != [] && |from| == |into| <= |data|
    ensures StrayAtFront(data, from, into) <==> into <= Replace(data, from, into)
  {
    hide Replace;
    hide Lead;
    var m := Min(Lead(data, from), |into|);
    FrontOfReplace(data, from, into, |into|);
    EqualParts(data[..m], into[..|into| - m], into);
  }

  /** Relocating back restores the file exactly when no stray occurrence of the new prefix arises. */
  lemma {:induction false} ReversibleIffNoStray(data: Bytes, from: Bytes, into: Bytes)
    requires from != [] && |from| == |into|
    ensures Replace(Replace(data, from, into), into, from) == data <==> NoStray(data, from, into)
  {
    hide StrayAtFront;
    var out := Replace(data, from, into);
    ReplaceLength(data, from, into);
    if |data| < |from| {
    } else if from <= data {
      var rest := data[|from|..];
      ReversibleIffNoStray(rest, from, into);
      assert out[|into|..] == Replace(rest, from, into);
      assert data == from + rest;
      SamePrefix(from, Replace(Replace(rest, from, into), into, from), rest);
    } else {
      var rest := data[1..];
      StrayMeans(data, from, into);
      ReversibleIffNoStray(rest, from, into);
      assert out[1..] == Replace(rest, from, into);
      assert data == [data[0]] + rest;
      SamePrefix([data[0]], Replace(Replace(rest, from, into), into, from), rest);
      if into <= out {
        assert from <= from + Replace(out[|into|..], into, from);
      }
    }
  }

  lemma SamePrefix(a: Bytes, b: Bytes, c: Bytes)
    ensures a + b == a + c <==> b == c
  {
    if a + b == a + c {
      assert b == (a + b)[|a|..] && c == (a + c)[|a|..];
    }
  }

  /** No proper prefix of the string is also a suffix of it. */
  ghost predicate Borderless(s: Bytes) {
    forall k :: 0 < k < |s| ==> s[k..] != s[..|s| - k]
  }

  lemma PrefixOccurs(part: Bytes, data: Bytes)
    requires part <= data
    ensures OccursAt(part, data, 0)
  {
    assert data[0..|part|] == data[..|part|];
  }

  lemma {:induction false} BorderlessAndNew(data: Bytes, from: Bytes, into: Bytes)
    requires from != [] && |from| == |into| && Borderless(into) && !Occurs(into, data)
    ensures NoStray(data, from, into)
    decreases |data|
  {
    if |data| < |from| {
    } else if from <= data {
      NotInSuffix(into, data, |from|);
      BorderlessAndNew(data[|from|..], from, into);
    } else {
      if StrayAtFront(data, from, into) && |into| <= Lead(data, from) {
        PrefixOccurs(into, data);
      }
      NotInSuffix(into, data, 1);
      BorderlessAndNew(data[1..], from, into);
    }
  }

  lemma NotInSuffix(part: Bytes, data: Bytes, shift: nat)
    requires shift <= |data| && !Occurs(part, data)
    ensures !Occurs(part, data[shift..])
  {
    forall p | OccursAt(part, data[shift..], p) ensures false {
      ShiftOccurrence(part, data, shift, p);
    }
  }

  /** The caller's guarantee: a new prefix without borders that does not occur in the file can be undone. */
  lemma RelocationIsReversible(data: Bytes, from: Bytes, into: Bytes)
    requires |from| == |into| && Borderless(into) && !Occurs(into, data)
    ensures Rewritten(Rewritten(data, from, into), into, from) == data
  {
    if from != [] {
      BorderlessAndNew(data, from, into);
      ReversibleIffNoStray(data, from, into);
    }
  }

  /** Neither condition can be dropped. */
  lemma BothConditionsMatter()
    ensures var data, from, into: Bytes := [1, 2], [1], [2];
            Borderless(into) && Occurs(into, data) && Rewritten(Rewritten(data, from, into), into, from) != data
    ensures var data, from, into: Bytes := [3, 1, 2], [1, 2], [3, 3];
            !Borderless(into) && !Occurs(into, data) && Rewritten(Rewritten(data, from, into), into, from) != data
  {
    var a: Bytes := [1, 2];
    assert OccursAt([2], a, 1);
    assert a[1..] == [2] && [2][1..] == [];
    assert Replace([2], [1], [2]) == [2] + Replace([], [1], [2]);
    assert Replace(a, [1], [2]) == [2] + Replace(a[1..], [1], [2]) == [2, 2];
    assert Replace([2, 2], [2], [1])[0] == 1 && Replace([2, 2][1..], [2], [1])[0] == 1;
    var b: Bytes := [3, 1, 2];
    assert b[1..] == [1, 2] && [1, 2][2..] == [];
    assert Replace([1, 2], [1, 2], [3, 3]) == [3, 3] + [];
    assert Replace(b, [1, 2], [3, 3]) == [3] + [3, 3] == [3, 3, 3];
    assert [3, 3] <= [3, 3, 3] && [3, 3, 3][2..] == [3];
    assert Replace([3, 3, 3], [3, 3], [1, 2]) == [1, 2] + [3];
    assert [3, 3][1..] == [3] == [3, 3][..1];
    forall p: nat ensures !OccursAt([3, 3], b, p) {
      if p + 2 <= 3 {
        assert b[p..p + 2][1] == b[p + 1];
      }
    }
  }

  // The tool over a tree of files.

  // A listed path, and the file that it leads to: through links several paths can lead to one file.
  datatype File = File(path: string, node: nat)

  // The contents of the files that can be read.
  type Disk = map<nat, Bytes>

  function Passes(data: Bytes, from: Bytes, into: Bytes, n: nat): Bytes {
    if n == 0 then data else Rewritten(Passes(data, from, into, n - 1), from, into)
  }

  /** How many of the listed paths lead to a file. */
  function Visits(files: seq<File>, node: nat): nat {
    if files == [] then 0
    else Visits(files[..|files| - 1], node) + if files[|files| - 1].node == node then 1 else 0
  }

  /** The last of the listed paths is reported: at its turn the old prefix occurs in what the file holds by then. */
  ghost predicate ReportsLast(disk: Disk, files: seq<File>, from: Bytes, into: Bytes)
    requires files != []
  {
    var before, node := files[..|files| - 1], files[|files| - 1].node;
    node in disk && Occurs(from, Passes(disk[node], from, into, Visits(before, node)))
  }

  ghost function ReportedPaths(disk: Disk, files: seq<File>, from: Bytes, into: Bytes): seq<string> {
    if files == [] then []
    else
      ReportedPaths(disk, files[..|files| - 1], from, into)
      + if ReportsLast(disk, files, from, into) then [files[|files| - 1].path] else []
  }

  /** Without aliases: each file is visited once, hence rewritten once. */
  lemma {:induction false} VisitedOnce(files: seq<File>, i: nat)
    requires i < |files| && forall j, k :: 0 <= j < k < |files| ==> files[j].node != files[k].node
    ensures Visits(files, files[i].node) == 1 && Visits(files[..i], files[i].node) == 0
  {
    var n := |files| - 1;
    if i < n {
      VisitedOnce(files[..n], i);
      assert files[..n][..i] == files[..i];
    } else {
      NotVisited(files[..n], files[n].node);
    }
  }

  /** Then each readable file is rewritten once, and its path reported exactly if the old prefix occurs in the file. */
  lemma WithoutAliases(disk: Disk, files: seq<File>, from: Bytes, into: Bytes, i: nat)
    requires i < |files| && forall j, k :: 0 <= j < k < |files| ==> files[j].node != files[k].node
    requires files[i].node in disk
    ensures var data := disk[files[i].node];
            && Passes(data, from, into, Visits(files, files[i].node)) == Rewritten(data, from, into)
            && (ReportsLast(disk, files[..i + 1], from, into) <==> Occurs(from, data))
  {
    hide Occurs;
    hide Rewritten;
    hide Visits;
    var node := files[i].node;
    VisitedOnce(files, i);
    assert files[..i + 1][..i] == files[..i];
    assert Passes(disk[node], from, into, 1) == Rewritten(Passes(disk[node], from, into, 0), from, into);
  }

  lemma {:induction false} NotVisited(files: seq<File>, node: nat)
    requires forall j :: 0 <= j < |files| ==> files[j].node != node
    ensures Visits(files, node) == 0
  {
    if files != [] {
      NotVisited(files[..|files| - 1], node);
    }
  }

  /** A rewrite changes nothing exactly when the old prefix does not occur, or is the new one. */
  lemma RewritesNothing(data: Bytes, from: Bytes, into: Bytes)
    requires |from| == |into|
    ensures Rewritten(data, from, into) == data <==> from == into || !Occurs(from, data)
  {
    if from == into && from != [] {
      SamePrefixes(data, from);
    }
    if !Occurs(from, data) {
      AbsentMeansUnchanged(data, from, into);
    } else if from != into {
      var p :| OccursAt(from, data, p);
      RewritesSomething(data, from, into, p);
    }
  }

  lemma RewritesSomething(data: Bytes, from: Bytes, into: Bytes, p: nat)
    requires from != [] && |from| == |into| && from != into && OccursAt(from, data, p)
    ensures Replace(data, from, into) != data
  {
    hide Block;
    hide Replace;
    EveryOccurrenceIsCovered(data, from, p);
    var k := Differ(from, into);
    var m := Block(data, from, p).value;
    assert p < |data|;
    ReplaceBytes(data, from, into, p);
    BlocksAreDisjoint(data, from, p, m + k);
    ReplaceBytes(data, from, into, m + k);
    assert data[m + k] == data[m..m + |from|][k];
  }

  lemma Differ(a: Bytes, b: Bytes) returns (k: nat)
    requires |a| == |b| && a != b
    ensures k < |a| && a[k] != b[k]
  {
    k :| k < |a| && a[k] != b[k];
  }

  lemma {:induction false} SamePrefixes(data: Bytes, from: Bytes)
    requires from != []
    ensures Replace(data, from, from) == data
  {
    if |data| < |from| {
    } else if from <= data {
      SamePrefixes(data[|from|..], from);
      assert data == from + data[|from|..];
    } else {
      SamePrefixes(data[1..], from);
      assert data == [data[0]] + data[1..];
    }
  }

  /** The end of a new prefix, with the first j bytes of what follows it, is the old prefix. */
  predicate ArisesBehind(rest: Bytes, from: Bytes, into: Bytes, j: nat)
    requires from != [] && |from| == |into|
  {
    0 < j < |from| && j <= |rest| && from == into[j..] + Front(rest, from, into, j)
  }

  /** Seen from the input: the old prefix arises anew, from copied bytes and new prefixes next to each other. */
  predicate OldArises(data: Bytes, from: Bytes, into: Bytes)
    requires from != [] && |from| == |into|
  {
    if |data| < |from| then false
    else if from <= data then
      (exists j :: 0 < j < |from| && ArisesBehind(data[|from|..], from, into, j)) || OldArises(data[|from|..], from, into)
    else from == Front(data, from, into, |from|) || OldArises(data[1..], from, into)
  }

  /** One rewrite leaves an old prefix behind exactly when one arises anew. */
  lemma {:induction false} OldOccursIffArises(data: Bytes, from: Bytes, into: Bytes)
    requires from != [] && |from| == |into| && from != into
    ensures Occurs(from, Replace(data, from, into)) <==> OldArises(data, from, into)
    decreases |data|
  {
    hide Front;
    hide Lead;
    ReplaceLength(data, from, into);
    if |data| < |from| {
    } else if from <= data {
      var rest := data[|from|..];
      ReplaceLength(rest, from, into);
      OldOccursIffArises(rest, from, into);
      OccursAfter(from, into, Replace(rest, from, into));
      forall j | 0 < j < |from| && j <= |rest|
        ensures ArisesBehind(rest, from, into, j) <==> from == into[j..] + Replace(rest, from, into)[..j]
      {
        FrontOfReplace(rest, from, into, j);
      }
    } else {
      var out := Replace(data, from, into);
      OldOccursIffArises(data[1..], from, into);
      FrontOfReplace(data, from, into, |from|);
      assert out[1..] == Replace(data[1..], from, into);
      OccursInTail(from, out);
    }
  }

  lemma OccursInTail(part: Bytes, data: Bytes)
    requires 0 < |part| <= |data|
    ensures Occurs(part, data) <==> data[..|part|] == part || Occurs(part, data[1..])
  {
    assert data[0..|part|] == data[..|part|];
    if Occurs(part, data) {
      var p: nat :| OccursAt(part, data, p);
      if p > 0 {
        ShiftOccurrence(part, data, 1, p - 1);
      }
    }
    if data[..|part|] == part {
      assert OccursAt(part, data, 0);
    }
    if Occurs(part, data[1..]) {
      var p: nat :| OccursAt(part, data[1..], p);
      ShiftOccurrence(part, data, 1, p);
    }
  }

  /** An occurrence in first + rest starts inside `first`, or lies in `rest`. */
  lemma OccursAfter(part: Bytes, first: Bytes, rest: Bytes)
    requires part != [] && |part| == |first| && part != first
    ensures Occurs(part, first + rest)
            <==> (exists j :: 0 < j < |part| && j <= |rest| && part == first[j..] + rest[..j]) || Occurs(part, rest)
  {
    var n, data := |part|, first + rest;
    assert data[n..] == rest && data[0..n] == first;
    forall j | 0 < j < n && j <= |rest| ensures data[j..j + n] == first[j..] + rest[..j] {
    }
    if Occurs(part, data) {
      var p: nat :| OccursAt(part, data, p);
      if n <= p {
        ShiftOccurrence(part, data, n, p - n);
      } else if 0 < p {
        assert data[p..p + n] == first[p..] + rest[..p];
      }
    }
    if j :| 0 < j < n && j <= |rest| && part == first[j..] + rest[..j] {
      assert OccursAt(part, data, j);
    }
    if Occurs(part, rest) {
      var p: nat :| OccursAt(part, rest, p);
      ShiftOccurrence(part, data, n, p);
      assert OccursAt(part, data, p + n);
    }
  }

  /**
   Through an alias a file is rewritten again. That does no harm exactly when no old prefix arises anew in the
   first rewrite, or the prefixes are the same; then any number of visits does what one does.
   */
  lemma SecondVisit(data: Bytes, from: Bytes, into: Bytes, n: nat)
    requires |from| == |into|
    ensures Passes(data, from, into, 2) == Passes(data, from, into, 1) <==> from == into || !OldArises(data, from, into)
    ensures 1 <= n && (from == into || !OldArises(data, from, into))
            ==> Passes(data, from, into, n) == Passes(data, from, into, 1)
  {
    hide Occurs;
    hide OldArises;
    assert Passes(data, from, into, 1) == Rewritten(Passes(data, from, into, 0), from, into);
    RewritesNothing(Passes(data, from, into, 1), from, into);
    if from != into {
      OldOccursIffArises(data, from, into);
    }
    if 1 < n {
      SecondVisit(data, from, into, n - 1);
    }
  }

  /** A file that two visits rewrite further than one does. */
  lemma AliasRewritesTwice()
    ensures var data, from, into: Bytes := [1, 1, 2, 2], [1, 2], [2, 1];
            Passes(data, from, into, 1) == [1, 2, 1, 2] && Passes(data, from, into, 2) == [2, 1, 2, 1]
  {
    var a: Bytes := [1, 1, 2, 2];
    assert a[1..] == [1, 2, 2] && [1, 2, 2][2..] == [2];
    assert Replace([1, 2, 2], [1, 2], [2, 1]) == [2, 1] + [2];
    assert a[..2] == [1, 1];
    assert Replace(a, [1, 2], [2, 1]) == [1] + [2, 1, 2];
    assert Passes(a, [1, 2], [2, 1], 1) == Replace(a, [1, 2], [2, 1]);
    var b: Bytes := [1, 2, 1, 2];
    assert b[2..] == [1, 2] && [1, 2][2..] == [];
    assert Replace([1, 2], [1, 2], [2, 1]) == [2, 1] + [];
    assert Replace(b, [1, 2], [2, 1]) == [2, 1] + [2, 1];
  }

  /** part in data */
  method Contains(data: Bytes, part: Bytes) returns (found: bool)
    ensures found <==> Occurs(part, data)
  {
    var p := 0;
    while p + |part| <= |data|
      invariant forall q: nat :: q < p ==> !OccursAt(part, data, q)
    {
      if data[p..p + |part|] == part {
        assert OccursAt(part, data, p);
        return true;
      }
      p := p + 1;
    }
    return false;
  }

  lemma AbsentMeansUnchanged(data: Bytes, from: Bytes, into: Bytes)
    requires |from| == |into| && !Occurs(from, data)
    ensures Rewritten(data, from, into) == data
  {
    if from != [] {
      ReplaceLength(data, from, into);
      forall i | 0 <= i < |data| ensures Replace(data, from, into)[i] == data[i] {
        ReplaceBytes(data, from, into, i);
      }
    }
  }

  /**
   None stands for the usage error on prefixes of different lengths. Each readable file ends up rewritten once for
   each path that leads to it, and a path is reported if its visit rewrote something.
   */
  method RelocateTree(files: seq<File>, disk: Disk, from: Bytes, into: Bytes)
    returns (result: Option<(Disk, seq<string>)>)
    ensures result.None? <==> |from| != |into|
    ensures result.Some? ==>
              var (disk', changed) := result.value;
              && disk'.Keys == disk.Keys
              && (forall n :: n in disk ==> disk'[n] == Passes(disk[n], from, into, Visits(files, n)))
              && changed == ReportedPaths(disk, files, from, into)
  {
    hide Passes;
    hide Rewritten;
    hide Occurs;
    if |from| != |into| {
      return None;
    }
    var disk', changed: seq<string> := disk, [];
    forall n | n in disk ensures Passes(disk[n], from, into, 0) == disk[n] {
      NoPass(disk[n], from, into);
    }
    for i := 0 to |files|
      invariant disk'.Keys == disk.Keys
      invariant forall n :: n in disk ==> disk'[n] == Passes(disk[n], from, into, Visits(files[..i], n))
      invariant changed == ReportedPaths(disk, files[..i], from, into)
    {
      var node := files[i].node;
      assert files[..i + 1][..i] == files[..i];
      if node in disk' {
        var data := disk'[node];
        var found := Contains(data, from);
        OnePass(disk[node], from, into, Visits(files[..i], node));
        if found {
          disk' := disk'[node := Rewritten(data, from, into)];
          changed := changed + [files[i].path];
        } else {
          AbsentMeansUnchanged(data, from, into);
        }
      }
    }
    assert files[..|files|] == files;
    result := Some((disk', changed));
  }

  lemma NoPass(data: Bytes, from: Bytes, into: Bytes)
    ensures Passes(data, from, into, 0) == data
  {
  }

  lemma OnePass(data: Bytes, from: Bytes, into: Bytes, n: nat)
    ensures Passes(data, from, into, n + 1) == Rewritten(Passes(data, from, into, n), from, into)
  {
  }
}
