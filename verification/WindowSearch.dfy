/**
 Finding a window by class (examples/desktop-session/desktop-session.c): a preorder walk that is bounded in
 depth, fan-out and number of windows, and keeps the smallest matching window in variables shared by all
 levels of the recursion.
 */
module WindowSearch {
  import opened Octets
  import opened WindowTree

  const MAX_DEPTH := 5
  const MAX_KIDS := 64
  const MAX_VISITED := 256

  function Lower(c: char): char {
    if 'A' <= c <= 'Z' then (c as int + 32) as char else c
  }

  /** strcasecmp(a, b) == 0 */
  predicate SameFolded(a: string, b: string) {
    |a| == |b| && forall i :: 0 <= i < |a| ==> Lower(a[i]) == Lower(b[i])
  }

  predicate ClassMatches(h: Hint, wanted: string) {
    || (h.resClass.Some? && SameFolded(h.resClass.value, wanted))
    || (h.resName.Some? && SameFolded(h.resName.value, wanted))
  }

  /** A window that the walk may return: it matches, is viewable, and is not tiny. */
  predicate Candidate(s: Server, w: Window, wanted: string) {
    && w in s && s[w].hint.Some? && ClassMatches(s[w].hint.value, wanted)
    && s[w].attributes.Some?
    && s[w].attributes.value.viewable && 80 <= s[w].attributes.value.width && 40 <= s[w].attributes.value.height
  }

  function Product(s: Server, w: Window): nat
    requires w in s && s[w].attributes.Some?
  {
    var width: int, height: int := s[w].attributes.value.width, s[w].attributes.value.height;
    width * height
  }

  /** The product as a 32-bit int. C leaves its overflow undefined; this is the wrap-around of the machine. */
  function Area(s: Server, w: Window): int
    requires w in s && s[w].attributes.Some?
  {
    var p := Product(s, w);
    if p < 0x8000_0000 then p else p - WORD
  }

  /** A window of at least 2^31 pixels. */
  predicate Overflows(s: Server, w: Window)
    requires w in s && s[w].attributes.Some?
  {
    0x8000_0000 <= Product(s, w)
  }

  lemma ProductIsBounded(s: Server, w: Window)
    requires w in s && s[w].attributes.Some?
    ensures Product(s, w) <= 0xFFFF * 0xFFFF
  {
    var width: int, height: int := s[w].attributes.value.width, s[w].attributes.value.height;
    assert (0xFFFF - width) * height >= 0;
    assert width * height <= 0xFFFF * height;
  }

  /** One wrap is enough: the area fits in an int, and is the product exactly when that does. */
  lemma AreaFits(s: Server, w: Window)
    requires w in s && s[w].attributes.Some?
    ensures -0x8000_0000 <= Area(s, w) < 0x8000_0000
    ensures Area(s, w) % WORD == Product(s, w)
    ensures Area(s, w) == Product(s, w) <==> !Overflows(s, w)
  {
    ProductIsBounded(s, w);
    hide Product;
  }

  // What the recursion shares.
  datatype Best = Best(window: Window, area: int)

  function Consider(s: Server, wanted: string, best: Best, w: Window): Best {
    if Candidate(s, w, wanted) && (best.window == NONE || Area(s, w) < best.area) then Best(w, Area(s, w)) else best
  }

  function Fold(s: Server, wanted: string, best: Best, windows: seq<Window>): Best {
    if windows == [] then best
    else Consider(s, wanted, Fold(s, wanted, best, windows[..|windows| - 1]), windows[|windows| - 1])
  }

  lemma {:induction false} FoldConcat(s: Server, wanted: string, best: Best, a: seq<Window>, b: seq<Window>)
    ensures Fold(s, wanted, best, a + b) == Fold(s, wanted, Fold(s, wanted, best, a), b)
    decreases |b|
  {
    hide Consider;
    if b == [] {
      assert a + b == a;
    } else {
      FoldConcat(s, wanted, best, a, b[..|b| - 1]);
      assert (a + b)[..|a + b| - 1] == a + b[..|b| - 1] && (a + b)[|a + b| - 1] == b[|b| - 1];
    }
  }

  function Kids(s: Server, w: Window): seq<Window> {
    if w !in s then [] else if |s[w].kids| <= MAX_KIDS then s[w].kids else s[w].kids[..MAX_KIDS]
  }

  /** The windows that the walk visits, in order, when `visited` were visited before. */
  function Walk(s: Server, w: Window, depth: nat, visited: nat): seq<Window>
    decreases 6 - depth, 0, 1
  {
    if depth > MAX_DEPTH || visited > MAX_VISITED then []
    else [w] + WalkKids(s, Kids(s, w), depth + 1, visited + 1)
  }

  function WalkKids(s: Server, kids: seq<Window>, depth: nat, visited: nat): seq<Window>
    decreases 6 - depth, 1, |kids|
  {
    if kids == [] || depth > MAX_DEPTH then [] else
    var first := Walk(s, kids[0], depth, visited);
    first + WalkKids(s, kids[1..], depth, visited + |first|)
  }

  class Search {
    const s: Server
    const wanted: string
    var best: Window
    var bestArea: int
    var visited: nat

    constructor (s: Server, wanted: string)
      ensures this.s == s && this.wanted == wanted && best == NONE && bestArea == 0 && visited == 0
    {
      this.s, this.wanted := s, wanted;
      best, bestArea, visited := NONE, 0, 0;
    }

    method ConsiderWindow(window: Window)
      modifies this`best, this`bestArea
      ensures Best(best, bestArea) == Consider(s, wanted, Best(old(best), old(bestArea)), window)
    {
      if window !in s || s[window].hint.None? {
        return;
      }
      if !ClassMatches(s[window].hint.value, wanted) {
        return;
      }
      if s[window].attributes.None? {
        return;
      }
      var a := s[window].attributes.value;
      if !a.viewable || a.width < 80 || a.height < 40 {
        return;
      }
      var area := Area(s, window);
      if best == NONE || area < bestArea {
        best := window;
        bestArea := area;
      }
    }

    method WalkClass(window: Window, depth: nat)
      modifies this`best, this`bestArea, this`visited
      ensures visited == old(visited) + |Walk(s, window, depth, old(visited))|
      ensures Best(best, bestArea)
              == Fold(s, wanted, Best(old(best), old(bestArea)), Walk(s, window, depth, old(visited)))
      decreases 6 - depth, 0
    {
      if depth > MAX_DEPTH || visited > MAX_VISITED {
        return;
      }
      visited := visited + 1;
      ConsiderWindow(window);
      ghost var rest := WalkKids(s, Kids(s, window), depth + 1, visited);
      FoldOne(s, wanted, Best(old(best), old(bestArea)), window, rest);
      if window !in s {
        return;
      }
      hide Fold;
      hide Consider;
      WalkChildren(Kids(s, window), depth + 1);
    }

    /** The loop over the children of a window. */
    method WalkChildren(kids: seq<Window>, depth: nat)
      requires depth <= 6
      modifies this`best, this`bestArea, this`visited
      ensures visited == old(visited) + |WalkKids(s, kids, depth, old(visited))|
      ensures Best(best, bestArea)
              == Fold(s, wanted, Best(old(best), old(bestArea)), WalkKids(s, kids, depth, old(visited)))
      decreases 6 - depth, 1
    {
      hide Fold;
      hide Consider;
      hide Walk;
      hide WalkKids;
      ghost var all := WalkKids(s, kids, depth, visited);
      ghost var start, startVisited := Best(best, bestArea), visited;
      assert kids[0..] == kids;
      for i := 0 to |kids|
        invariant startVisited + |all| == visited + |WalkKids(s, kids[i..], depth, visited)|
        invariant Fold(s, wanted, start, all)
                  == Fold(s, wanted, Best(best, bestArea), WalkKids(s, kids[i..], depth, visited))
      {
        ghost var first := Walk(s, kids[i], depth, visited);
        ghost var rest := WalkKids(s, kids[i + 1..], depth, visited + |first|);
        assert kids[i..][0] == kids[i] && kids[i..][1..] == kids[i + 1..];
        FoldConcat(s, wanted, Best(best, bestArea), first, rest);
        KidsStep(s, kids[i..], depth, visited);
        WalkClass(kids[i], depth);
      }
      assert kids[|kids|..] == [];
      NoKids(s, wanted, Best(best, bestArea), depth, visited);
    }
  }

  lemma NoKids(s: Server, wanted: string, best: Best, depth: nat, visited: nat)
    ensures WalkKids(s, [], depth, visited) == [] && Fold(s, wanted, best, []) == best
  {
  }

  lemma KidsStep(s: Server, kids: seq<Window>, depth: nat, visited: nat)
    requires kids != []
    ensures var first := Walk(s, kids[0], depth, visited);
            WalkKids(s, kids, depth, visited) == first + WalkKids(s, kids[1..], depth, visited + |first|)
  {
    if depth > MAX_DEPTH {
      assert WalkKids(s, kids[1..], depth, visited) == [];
    }
  }

  lemma FoldOne(s: Server, wanted: string, best: Best, w: Window, rest: seq<Window>)
    ensures Fold(s, wanted, best, [w] + rest) == Fold(s, wanted, Consider(s, wanted, best, w), rest)
  {
    FoldConcat(s, wanted, best, [w], rest);
    assert [w][..0] == [];
    assert Fold(s, wanted, best, [w]) == Consider(s, wanted, Fold(s, wanted, best, []), w);
  }

  /** The letters agree: the codes are equal, or one is a capital and the other its small form, 32 further on. */
  ghost predicate SameLetter(a: char, b: char) {
    a as int == b as int
    || (65 <= a as int <= 90 && b as int == a as int + 32)
    || (65 <= b as int <= 90 && a as int == b as int + 32)
  }

  ghost predicate SameLetters(a: Option<string>, b: string) {
    a.Some? && |a.value| == |b| && forall i :: 0 <= i < |b| ==> SameLetter(a.value[i], b[i])
  }

  /** In the window's own fields: shown, at least 80 by 40, and of the wanted class or instance name. */
  ghost predicate Suits(i: Info, wanted: string) {
    && i.attributes.Some? && i.attributes.value.viewable
    && i.attributes.value.width >= 80 && i.attributes.value.height >= 40
    && i.hint.Some? && (SameLetters(i.hint.value.resClass, wanted) || SameLetters(i.hint.value.resName, wanted))
  }

  lemma FoldsAreLetters(a: string, b: string)
    ensures SameFolded(a, b) <==> SameLetters(Some(a), b)
  {
    forall i | 0 <= i < |a| && |a| == |b| ensures Lower(a[i]) == Lower(b[i]) <==> SameLetter(a[i], b[i]) {
      FoldIsLetter(a[i], b[i]);
    }
    hide Lower;
    hide SameLetter;
  }

  lemma FoldIsLetter(a: char, b: char)
    ensures Lower(a) == Lower(b) <==> SameLetter(a, b)
  {
  }

  lemma CandidateSuits(s: Server, w: Window, wanted: string)
    ensures Candidate(s, w, wanted) <==> w in s && Suits(s[w], wanted)
  {
    hide SameFolded;
    hide SameLetter;
    if w in s && s[w].hint.Some? {
      if s[w].hint.value.resClass.Some? {
        FoldsAreLetters(s[w].hint.value.resClass.value, wanted);
      }
      if s[w].hint.value.resName.Some? {
        FoldsAreLetters(s[w].hint.value.resName.value, wanted);
      }
    }
  }

  /** find_class returns a suitable window of those visited, and None exactly when there is none. */
  method FindClass(s: Server, root: Window, wanted: string) returns (best: Window)
    ensures best == Fold(s, wanted, Best(NONE, 0), Walk(s, root, 0, 0)).window
    ensures NONE !in Walk(s, root, 0, 0) ==>
              && (best != NONE ==> best in Walk(s, root, 0, 0) && best in s && Suits(s[best], wanted))
              && (best == NONE <==> forall w :: w in Walk(s, root, 0, 0) && w in s ==> !Suits(s[w], wanted))
  {
    if NONE !in Walk(s, root, 0, 0) {
      FindsSuitable(s, root, wanted);
    }
    var search := new Search(s, wanted);
    search.WalkClass(root, 0);
    best := search.best;
  }

  /** What the fold over a list means: the first of its smallest candidates. */
  ghost predicate FirstSmallest(s: Server, wanted: string, windows: seq<Window>, w: Window) {
    exists i ::
      && 0 <= i < |windows| && windows[i] == w && Candidate(s, w, wanted)
      && (forall j :: 0 <= j < |windows| && Candidate(s, windows[j], wanted) ==> Area(s, w) <= Area(s, windows[j]))
      && (forall j :: 0 <= j < i && Candidate(s, windows[j], wanted) ==> Area(s, w) < Area(s, windows[j]))
  }

  lemma {:induction false} FoldIsFirstSmallest(s: Server, wanted: string, windows: seq<Window>)
    requires NONE !in windows
    ensures var best := Fold(s, wanted, Best(NONE, 0), windows);
            && (best.window == NONE <==> forall w :: w in windows ==> !Candidate(s, w, wanted))
            && (best.window != NONE ==>
                  FirstSmallest(s, wanted, windows, best.window) && best.area == Area(s, best.window))
  {
    hide Area;
    hide ClassMatches;
    if windows != [] {
      var k := |windows| - 1;
      var before := Fold(s, wanted, Best(NONE, 0), windows[..k]);
      FoldIsFirstSmallest(s, wanted, windows[..k]);
      FirstSmallestStep(s, wanted, windows[..k], windows[k], before);
      assert windows == windows[..k] + [windows[k]];
    }
  }

  lemma FirstSmallestStep(s: Server, wanted: string, windows: seq<Window>, last: Window, before: Best)
    requires last != NONE
    requires before.window == NONE <==> forall w :: w in windows ==> !Candidate(s, w, wanted)
    requires before.window != NONE ==>
               FirstSmallest(s, wanted, windows, before.window) && before.area == Area(s, before.window)
    ensures var best, all := Consider(s, wanted, before, last), windows + [last];
            && (best.window == NONE <==> forall w :: w in all ==> !Candidate(s, w, wanted))
            && (best.window != NONE ==> FirstSmallest(s, wanted, all, best.window) && best.area == Area(s, best.window))
  {
    hide Area;
    hide ClassMatches;
    var best, all := Consider(s, wanted, before, last), windows + [last];
    assert all[|windows|] == last && forall j :: 0 <= j < |windows| ==> all[j] == windows[j];
    assert last in all;
    if best.window != NONE {
      if best == before {
        var i :| 0 <= i < |windows| && windows[i] == before.window && Candidate(s, before.window, wanted)
          && (forall j :: 0 <= j < |windows| && Candidate(s, windows[j], wanted) ==> Area(s, before.window) <= Area(s, windows[j]))
          && (forall j :: 0 <= j < i && Candidate(s, windows[j], wanted) ==> Area(s, before.window) < Area(s, windows[j]));
        assert all[i] == before.window;
      } else {
        assert all[|windows|] == best.window;
      }
    }
  }

  // Bounds.

  /** On any input whatsoever, cyclic ones included, at most 257 windows are visited. */
  lemma {:induction false} WalkIsBounded(s: Server, w: Window, depth: nat, visited: nat)
    requires visited <= MAX_VISITED + 1
    ensures visited + |Walk(s, w, depth, visited)| <= MAX_VISITED + 1
    decreases 6 - depth, 0, 1
  {
    if depth <= MAX_DEPTH && visited <= MAX_VISITED {
      WalkKidsIsBounded(s, Kids(s, w), depth + 1, visited + 1);
    }
  }

  lemma {:induction false} WalkKidsIsBounded(s: Server, kids: seq<Window>, depth: nat, visited: nat)
    requires visited <= MAX_VISITED + 1
    ensures visited + |WalkKids(s, kids, depth, visited)| <= MAX_VISITED + 1
    decreases 6 - depth, 1, |kids|
  {
    if kids != [] && depth <= MAX_DEPTH {
      WalkIsBounded(s, kids[0], depth, visited);
      WalkKidsIsBounded(s, kids[1..], depth, visited + |Walk(s, kids[0], depth, visited)|);
    }
  }

  /** The preorder without the bound on the number of windows. */
  function Full(s: Server, w: Window, depth: nat): seq<Window>
    decreases 6 - depth, 0, 1
  {
    if depth > MAX_DEPTH then [] else [w] + FullKids(s, Kids(s, w), depth + 1)
  }

  function FullKids(s: Server, kids: seq<Window>, depth: nat): seq<Window>
    decreases 6 - depth, 1, |kids|
  {
    if kids == [] || depth > MAX_DEPTH then [] else Full(s, kids[0], depth) + FullKids(s, kids[1..], depth)
  }

  function First(windows: seq<Window>, n: int): seq<Window> {
    if n <= 0 then [] else if n <= |windows| then windows[..n] else windows
  }

  lemma FirstOfConcat(a: seq<Window>, b: seq<Window>, n: nat)
    ensures First(a + b, n) == First(a, n) + First(b, n - |First(a, n)|)
  {
  }

  /** The walk is the front of the preorder, cut after the 257th window. */
  lemma {:induction false} WalkIsFront(s: Server, w: Window, depth: nat, visited: nat)
    requires visited <= MAX_VISITED + 1
    ensures Walk(s, w, depth, visited) == First(Full(s, w, depth), 257 - visited)
    decreases 6 - depth, 0, 1
  {
    if depth <= MAX_DEPTH && visited <= MAX_VISITED {
      hide Kids;
      hide FullKids;
      hide WalkKids;
      WalkKidsIsFront(s, Kids(s, w), depth + 1, visited + 1);
      FirstOfConcat([w], FullKids(s, Kids(s, w), depth + 1), MAX_VISITED + 1 - visited);
    }
  }

  lemma {:induction false} WalkKidsIsFront(s: Server, kids: seq<Window>, depth: nat, visited: nat)
    requires visited <= MAX_VISITED + 1
    ensures WalkKids(s, kids, depth, visited) == First(FullKids(s, kids, depth), MAX_VISITED + 1 - visited)
    decreases 6 - depth, 1, |kids|
  {
    if kids != [] && depth <= MAX_DEPTH {
      WalkIsFront(s, kids[0], depth, visited);
      WalkIsBounded(s, kids[0], depth, visited);
      WalkKidsIsFront(s, kids[1..], depth, visited + |Walk(s, kids[0], depth, visited)|);
      FirstOfConcat(Full(s, kids[0], depth), FullKids(s, kids[1..], depth), MAX_VISITED + 1 - visited);
    }
  }

  // Small trees are searched completely.

  ghost predicate Small(s: Server, depth: map<Window, nat>)
    requires depth.Keys == s.Keys
  {
    && (forall w :: w in s ==> depth[w] <= 5 && |s[w].kids| <= 64)
    && |s| <= 257
  }

  /** x lies under w. */
  ghost predicate Under(s: Server, depth: map<Window, nat>, w: Window, x: Window) {
    w in depth && x in depth && depth[w] <= depth[x] && Up(s, x, depth[x] - depth[w]) == w
  }

  lemma {:induction false} FullIsUnder(s: Server, root: Window, depth: map<Window, nat>, w: Window, level: nat)
    requires IsTree(s, root, depth) && w in s && level == depth[w]
    ensures forall x :: x in Full(s, w, level) ==> x in s && Under(s, depth, w, x)
    decreases 6 - level, 0, 1
  {
    hide IsTree;
    ParentOf(s, root, depth, w);
    if level <= MAX_DEPTH {
      var kids := Kids(s, w);
      KidsHang(s, root, depth, w);
      FullKidsAreUnder(s, root, depth, w, kids, level + 1);
      forall x | x in Full(s, w, level) ensures x in s && Under(s, depth, w, x) {
        if x != w {
          assert x in FullKids(s, kids, level + 1);
        }
      }
    }
  }

  lemma KidsHang(s: Server, root: Window, depth: map<Window, nat>, w: Window)
    requires IsTree(s, root, depth) && w in s
    ensures forall k :: k in Kids(s, w) ==> k in s && s[k].parent == w && depth[k] == depth[w] + 1
    ensures forall i, j :: 0 <= i < j < |Kids(s, w)| ==> Kids(s, w)[i] != Kids(s, w)[j]
  {
    assert ListsItsKids(s, root, w);
    forall k | k in Kids(s, w) ensures k in s && s[k].parent == w && depth[k] == depth[w] + 1 {
      assert k in s[w].kids;
      KidOf(s, root, depth, w, k);
    }
  }

  lemma {:induction false} FullKidsAreUnder(s: Server, root: Window, depth: map<Window, nat>, w: Window,
                                            kids: seq<Window>, level: nat)
    requires IsTree(s, root, depth) && w in s && level == depth[w] + 1
    requires forall k :: k in kids ==> k in s && s[k].parent == w && depth[k] == level
    ensures forall x :: x in FullKids(s, kids, level) ==>
              x in s && Under(s, depth, w, x) && x != w && exists k :: k in kids && Under(s, depth, k, x)
    decreases 6 - level, 1, |kids|
  {
    hide IsTree;
    ParentOf(s, root, depth, w);
    if kids != [] && level <= MAX_DEPTH {
      var k := kids[0];
      FullIsUnder(s, root, depth, k, level);
      FullKidsAreUnder(s, root, depth, w, kids[1..], level);
      forall x | x in Full(s, k, level) ensures Under(s, depth, w, x) {
        UpSnoc(s, root, depth, x, depth[x] - level);
      }
    }
  }

  /** In a tree the preorder lists no window twice. */
  lemma {:induction false} FullIsDistinct(s: Server, root: Window, depth: map<Window, nat>, w: Window, level: nat)
    requires IsTree(s, root, depth) && w in s && level == depth[w]
    ensures Distinct(Full(s, w, level))
    decreases 6 - level, 0, 1
  {
    hide IsTree;
    hide Under;
    hide FullKids;
    hide Kids;
    ParentOf(s, root, depth, w);
    if level <= MAX_DEPTH {
      KidsHang(s, root, depth, w);
      FullKidsAreUnder(s, root, depth, w, Kids(s, w), level + 1);
      FullKidsAreDistinct(s, root, depth, w, Kids(s, w), level + 1);
      DistinctConcat([w], FullKids(s, Kids(s, w), level + 1));
    }
  }

  lemma {:induction false} FullKidsAreDistinct(s: Server, root: Window, depth: map<Window, nat>, w: Window,
                                               kids: seq<Window>, level: nat)
    requires IsTree(s, root, depth) && w in s && level == depth[w] + 1
    requires forall k :: k in kids ==> k in s && s[k].parent == w && depth[k] == level
    requires Distinct(kids)
    ensures Distinct(FullKids(s, kids, level))
    decreases 6 - level, 1, |kids|
  {
    hide IsTree;
    ParentOf(s, root, depth, w);
    if kids != [] && level <= MAX_DEPTH {
      hide Full;
      hide Under;
      var k := kids[0];
      DistinctTail(kids);
      hide Distinct;
      assert k in s;
      FullIsDistinct(s, root, depth, k, level);
      FullKidsAreDistinct(s, root, depth, w, kids[1..], level);
      SubtreesAreDisjoint(s, root, depth, w, k, kids[1..], level);
      DistinctConcat(Full(s, k, level), FullKids(s, kids[1..], level));
    }
  }

  lemma SubtreesAreDisjoint(s: Server, root: Window, depth: map<Window, nat>, w: Window, k: Window,
                            others: seq<Window>, level: nat)
    requires IsTree(s, root, depth) && w in s && level == depth[w] + 1
    requires k in s && depth[k] == level && k !in others
    requires forall o :: o in others ==> o in s && s[o].parent == w && depth[o] == level
    ensures forall x :: x in Full(s, k, level) ==> x !in FullKids(s, others, level)
  {
    hide IsTree;
    hide Full;
    hide FullKids;
    hide Under;
    FullIsUnder(s, root, depth, k, level);
    FullKidsAreUnder(s, root, depth, w, others, level);
    forall x | x in Full(s, k, level) ensures x !in FullKids(s, others, level) {
      if x in FullKids(s, others, level) {
        var o :| o in others && Under(s, depth, o, x);
        OneAncestor(s, depth, k, o, x);
      }
    }
  }

  lemma OneAncestor(s: Server, depth: map<Window, nat>, a: Window, b: Window, x: Window)
    requires Under(s, depth, a, x) && Under(s, depth, b, x) && depth[a] == depth[b]
    ensures a == b
  {
  }

  lemma DistinctConcat(a: seq<Window>, b: seq<Window>)
    requires Distinct(a) && Distinct(b) && forall x :: x in a ==> x !in b
    ensures Distinct(a + b)
  {
    var c := a + b;
    forall i, j | 0 <= i < j < |c| ensures c[i] != c[j] {
      if i < |a| <= j {
        assert a[i] in a && b[j - |a|] in b;
      }
    }
  }

  lemma DistinctTail(windows: seq<Window>)
    requires Distinct(windows) && windows != []
    ensures Distinct(windows[1..]) && windows[0] !in windows[1..]
  {
  }

  /** The preorder contains every window below w, as long as no bound cuts it off. */
  lemma {:induction false} FullIsComplete(s: Server, root: Window, depth: map<Window, nat>, x: Window, n: nat, level: nat)
    requires IsTree(s, root, depth) && x in s && n <= depth[x] && level == depth[x] - n
    requires Small(s, depth)
    ensures Up(s, x, n) in s && x in Full(s, Up(s, x, n), level)
    decreases n
  {
    hide IsTree;
    hide Full;
    hide Kids;
    ParentOf(s, root, depth, x);
    UpDepth(s, root, depth, x, n);
    if n == 0 {
      FullHasItself(s, depth, x);
    } else {
      FullIsComplete(s, root, depth, x, n - 1, level + 1);
      UpSnoc(s, root, depth, x, n - 1);
      UpDepth(s, root, depth, x, n - 1);
      ParentOf(s, root, depth, Up(s, x, n - 1));
      FullHasKids(s, depth, Up(s, x, n), Up(s, x, n - 1), x);
    }
  }

  lemma FullHasItself(s: Server, depth: map<Window, nat>, w: Window)
    requires depth.Keys == s.Keys && Small(s, depth) && w in s
    ensures w in Full(s, w, depth[w])
  {
  }

  lemma FullHasKids(s: Server, depth: map<Window, nat>, w: Window, k: Window, x: Window)
    requires depth.Keys == s.Keys && Small(s, depth) && w in s && k in s[w].kids
    requires x in Full(s, k, depth[w] + 1)
    ensures x in Full(s, w, depth[w])
  {
    hide FullKids;
    assert k in Kids(s, w);
    FullKidsContain(s, Kids(s, w), k, depth[w] + 1);
  }

  lemma {:induction false} FullKidsContain(s: Server, kids: seq<Window>, k: Window, level: nat)
    requires k in kids && level <= MAX_DEPTH
    ensures forall x :: x in Full(s, k, level) ==> x in FullKids(s, kids, level)
  {
    if kids[0] != k {
      FullKidsContain(s, kids[1..], k, level);
    }
  }

  lemma {:induction false} DistinctLength(windows: seq<Window>, all: set<Window>)
    requires Distinct(windows) && forall w :: w in windows ==> w in all
    ensures |windows| <= |all|
  {
    if windows != [] {
      var w := windows[0];
      assert w !in windows[1..] && w in windows;
      DistinctLength(windows[1..], all - {w});
      assert |all - {w}| == |all| - 1;
    }
  }

  /** On a small tree the walk visits every window exactly once. */
  lemma SmallTreeIsWalked(s: Server, root: Window, depth: map<Window, nat>)
    requires IsTree(s, root, depth) && Small(s, depth)
    ensures Distinct(Walk(s, root, 0, 0))
    ensures forall w :: w in Walk(s, root, 0, 0) <==> w in s
  {
    hide IsTree;
    hide Full;
    hide Walk;
    hide Up;
    RootOf(s, root, depth);
    var full := Full(s, root, 0);
    FullIsDistinct(s, root, depth, root, 0);
    FullIsUnder(s, root, depth, root, 0);
    DistinctLength(full, s.Keys);
    WalkIsFront(s, root, 0, 0);
    forall w | w in s ensures w in full {
      ParentOf(s, root, depth, w);
      UpDepth(s, root, depth, w, depth[w]);
      FullIsComplete(s, root, depth, w, depth[w], 0);
    }
  }

  /** What find_class returns on any server state: the first smallest candidate among the windows visited. */
  lemma FindsFirstSmallestVisited(s: Server, root: Window, wanted: string)
    requires NONE !in Walk(s, root, 0, 0)
    ensures var best, walk := Fold(s, wanted, Best(NONE, 0), Walk(s, root, 0, 0)).window, Walk(s, root, 0, 0);
            && |walk| <= 257
            && (best == NONE <==> forall w :: w in walk ==> !Candidate(s, w, wanted))
            && (best != NONE ==> FirstSmallest(s, wanted, walk, best))
  {
    WalkIsBounded(s, root, 0, 0);
    FoldIsFirstSmallest(s, wanted, Walk(s, root, 0, 0));
  }

  lemma FindsSuitable(s: Server, root: Window, wanted: string)
    requires NONE !in Walk(s, root, 0, 0)
    ensures var best := Fold(s, wanted, Best(NONE, 0), Walk(s, root, 0, 0)).window;
            && (best != NONE ==> best in Walk(s, root, 0, 0) && best in s && Suits(s[best], wanted))
            && (best == NONE <==> forall w :: w in Walk(s, root, 0, 0) && w in s ==> !Suits(s[w], wanted))
  {
    hide Candidate;
    hide Suits;
    hide Walk;
    hide Fold;
    FindsFirstSmallestVisited(s, root, wanted);
    forall w ensures Candidate(s, w, wanted) <==> w in s && Suits(s[w], wanted) {
      CandidateSuits(s, w, wanted);
    }
  }

  /**
   On a small tree that is the candidate of the smallest area, or None exactly when there is no candidate. The
   area being an int, it is the one with the fewest pixels exactly when no candidate's product overflows, or all do.
   */
  lemma FindsGlobalMinimum(s: Server, root: Window, depth: map<Window, nat>, wanted: string)
    requires IsTree(s, root, depth) && Small(s, depth)
    ensures var best := Fold(s, wanted, Best(NONE, 0), Walk(s, root, 0, 0)).window;
            && (best == NONE <==> forall w :: w in s ==> !Candidate(s, w, wanted))
            && (best == NONE <==> forall w :: w in s ==> !Suits(s[w], wanted))
            && (best != NONE ==>
                  && Candidate(s, best, wanted) && Suits(s[best], wanted)
                  && (forall w :: w in s && Candidate(s, w, wanted) ==> Area(s, best) <= Area(s, w))
                  && ((forall w :: w in s && Candidate(s, w, wanted) ==> Product(s, best) <= Product(s, w))
                      <==> AllFit(s, wanted) || NoneFits(s, wanted)))
  {
    RootOf(s, root, depth);
    SmallTreeIsWalked(s, root, depth);
    hide IsTree;
    hide Walk;
    hide Candidate;
    FindsFirstSmallestVisited(s, root, wanted);
    FindsSuitable(s, root, wanted);
    var best := Fold(s, wanted, Best(NONE, 0), Walk(s, root, 0, 0)).window;
    if best != NONE {
      FewestPixels(s, wanted, best);
    }
  }

  ghost predicate AllFit(s: Server, wanted: string) {
    forall w :: w in s && Candidate(s, w, wanted) ==> !Overflows(s, w)
  }

  ghost predicate NoneFits(s: Server, wanted: string) {
    forall w :: w in s && Candidate(s, w, wanted) ==> Overflows(s, w)
  }

  /** A candidate of the smallest area has the fewest pixels, unless some candidates overflow and some do not. */
  lemma FewestPixels(s: Server, wanted: string, best: Window)
    requires best in s && Candidate(s, best, wanted)
    requires forall w :: w in s && Candidate(s, w, wanted) ==> Area(s, best) <= Area(s, w)
    ensures (forall w :: w in s && Candidate(s, w, wanted) ==> Product(s, best) <= Product(s, w))
            <==> AllFit(s, wanted) || NoneFits(s, wanted)
  {
    AreaFits(s, best);
    forall w | w in s && Candidate(s, w, wanted)
      ensures -0x8000_0000 <= Area(s, w) < 0x8000_0000
      ensures Product(s, w) == if Overflows(s, w) then Area(s, w) + WORD else Area(s, w)
      ensures Overflows(s, w) <==> Area(s, w) < 0
    {
      AreaFits(s, w);
    }
    hide Candidate;
    hide Product;
    hide Area;
  }

  // What the walk reaches.

  /** From w, taking kid number steps[0], then kid number steps[1], and so on, leads to x. */
  ghost predicate Descends(s: Server, w: Window, x: Window, steps: seq<nat>)
    decreases |steps|
  {
    if steps == [] then w == x
    else w in s && steps[0] < 64 && steps[0] < |s[w].kids| && Descends(s, s[w].kids[steps[0]], x, steps[1..])
  }

  ghost predicate Reaches(s: Server, w: Window, x: Window, limit: int) {
    exists steps :: |steps| <= limit && Descends(s, w, x, steps)
  }

  /** Without the bound on the number of windows: what at most five steps reach, each to one of the first 64 kids. */
  lemma {:induction false} FullReaches(s: Server, w: Window, x: Window, depth: nat)
    ensures x in Full(s, w, depth) <==> Reaches(s, w, x, 5 - depth)
    decreases 6 - depth, 0, 1
  {
    hide Reaches;
    hide Kids;
    if depth <= 5 {
      FullKidsReach(s, Kids(s, w), x, depth + 1);
      ReachesThroughKid(s, w, x, 5 - depth);
    } else {
      NothingReached(s, w, x, 5 - depth);
    }
  }

  lemma ReachesThroughKid(s: Server, w: Window, x: Window, limit: nat)
    ensures Reaches(s, w, x, limit)
            <==> x == w || exists i :: 0 <= i < |Kids(s, w)| && Reaches(s, Kids(s, w)[i], x, limit - 1)
  {
    if x == w {
      assert Descends(s, w, x, []);
    }
    if Reaches(s, w, x, limit) && x != w {
      var steps :| |steps| <= limit && Descends(s, w, x, steps);
      assert Kids(s, w)[steps[0]] == s[w].kids[steps[0]];
      assert Descends(s, Kids(s, w)[steps[0]], x, steps[1..]);
    }
    if i :| 0 <= i < |Kids(s, w)| && Reaches(s, Kids(s, w)[i], x, limit - 1) {
      var steps :| |steps| <= limit - 1 && Descends(s, Kids(s, w)[i], x, steps);
      assert ([i] + steps)[1..] == steps;
      assert Descends(s, w, x, [i] + steps);
    }
  }

  lemma {:induction false} FullKidsReach(s: Server, kids: seq<Window>, x: Window, depth: nat)
    ensures x in FullKids(s, kids, depth) <==> exists i :: 0 <= i < |kids| && Reaches(s, kids[i], x, 5 - depth)
    decreases 6 - depth, 1, |kids|
  {
    hide Reaches;
    if depth > 5 {
      forall i | 0 <= i < |kids| ensures !Reaches(s, kids[i], x, 5 - depth) {
        NothingReached(s, kids[i], x, 5 - depth);
      }
    } else if kids != [] {
      FullReaches(s, kids[0], x, depth);
      FullKidsReach(s, kids[1..], x, depth);
      assert forall i :: 0 < i < |kids| ==> kids[i] == kids[1..][i - 1];
      assert forall i :: 0 <= i < |kids| - 1 ==> kids[1..][i] == kids[i + 1];
    }
  }

  lemma NothingReached(s: Server, w: Window, x: Window, limit: int)
    requires limit < 0
    ensures !Reaches(s, w, x, limit)
  {
  }

  // Two candidates under the root: of equal ones the first wins, and where the product overflows the larger one.

  function TwoCandidates(a: Extent, b: Extent): Server {
    var hint := Some(Hint(Some("x"), None));
    map[2 := Info(NONE, [3, 4], None, None),
        3 := Info(2, [], hint, Some(Attributes(true, a, a))),
        4 := Info(2, [], hint, Some(Attributes(true, b, b)))]
  }

  function TwoDepths(): map<Window, nat> {
    map[2 := 0, 3 := 1, 4 := 1]
  }

  lemma FirstOfEqualWins()
    ensures var s := TwoCandidates(100, 100);
            && 3 in s && 4 in s && Candidate(s, 3, "x") && Candidate(s, 4, "x") && Area(s, 3) == Area(s, 4)
            && Fold(s, "x", Best(NONE, 0), Walk(s, 2, 0, 0)).window == 3
  {
    hide Fold;
    hide Walk;
    hide ClassMatches;
    hide TwoCandidates;
    hide Area;
    var s := TwoCandidates(100, 100);
    TwoMatch(100, 100);
    TwoWalk(100, 100);
    FindsFirstSmallestVisited(s, 2, "x");
    var best := Fold(s, "x", Best(NONE, 0), Walk(s, 2, 0, 0)).window;
    assert Walk(s, 2, 0, 0)[1] == 3;
    assert FirstSmallest(s, "x", [2, 3, 4], best);
  }

  lemma TwoWalk(a: Extent, b: Extent)
    ensures Walk(TwoCandidates(a, b), 2, 0, 0) == [2, 3, 4]
  {
    var s := TwoCandidates(a, b);
    assert s.Keys == {2, 3, 4};
    assert Kids(s, 2) == [3, 4] && Kids(s, 3) == [] && Kids(s, 4) == [];
    assert Walk(s, 3, 1, 1) == [3] && Walk(s, 4, 1, 2) == [4];
    assert [3, 4][1..] == [4];
    assert WalkKids(s, [], 1, 3) == [];
    assert WalkKids(s, [4], 1, 2) == [4] + WalkKids(s, [4][1..], 1, 3);
    assert WalkKids(s, [3, 4], 1, 1) == [3] + [4];
  }

  lemma OverflowPicksLarger()
    ensures var s := TwoCandidates(100, 50000);
            && IsTree(s, 2, TwoDepths()) && Small(s, TwoDepths())
            && 3 in s && 4 in s && Candidate(s, 3, "x") && Candidate(s, 4, "x") && Product(s, 3) < Product(s, 4)
            && Fold(s, "x", Best(NONE, 0), Walk(s, 2, 0, 0)).window == 4
  {
    hide IsTree;
    hide Small;
    hide Fold;
    hide Walk;
    hide ClassMatches;
    hide TwoCandidates;
    hide Area;
    hide Product;
    hide AllFit;
    hide NoneFits;
    hide Suits;
    var s := TwoCandidates(100, 50000);
    TwoIsTree(100, 50000);
    TwoMatch(100, 50000);
    FindsGlobalMinimum(s, 2, TwoDepths(), "x");
    var best := Fold(s, "x", Best(NONE, 0), Walk(s, 2, 0, 0)).window;
    assert best != NONE;
    assert best in s && Area(s, best) <= Area(s, 4);
  }

  lemma TwoMatch(a: Extent, b: Extent)
    requires 80 <= a && 80 <= b
    ensures var s := TwoCandidates(a, b);
            && s.Keys == {2, 3, 4} && !Candidate(s, 2, "x") && Candidate(s, 3, "x") && Candidate(s, 4, "x")
            && (a == b ==> Area(s, 3) == Area(s, 4))
            && (a == 100 && b == 50000 ==> Product(s, 3) < Product(s, 4) && Area(s, 4) < Area(s, 3))
  {
    hide SameFolded;
    SameAsItself("x");
  }

  lemma SameAsItself(t: string)
    ensures SameFolded(t, t)
  {
  }

  lemma TwoIsTree(a: Extent, b: Extent)
    ensures IsTree(TwoCandidates(a, b), 2, TwoDepths()) && Small(TwoCandidates(a, b), TwoDepths())
  {
    hide HangsBelowParent;
    hide ListsItsKids;
    assert TwoCandidates(a, b).Keys == {2, 3, 4} == TwoDepths().Keys;
    TwoHang(a, b);
    assert TwoCandidates(a, b)[2].parent == NONE && TwoDepths()[2] == 0;
  }

  lemma TwoHang(a: Extent, b: Extent)
    ensures var s := TwoCandidates(a, b);
            && s.Keys == {2, 3, 4} == TwoDepths().Keys
            && ListsItsKids(s, 2, 2) && ListsItsKids(s, 2, 3) && ListsItsKids(s, 2, 4)
            && HangsBelowParent(s, TwoDepths(), 3) && HangsBelowParent(s, TwoDepths(), 4)
  {
    var s := TwoCandidates(a, b);
    assert s.Keys == {2, 3, 4} == TwoDepths().Keys;
    assert s[2].kids == [3, 4] && [3, 4][0] == 3 && [3, 4][1] == 4;
    assert s[3].kids == [] == s[4].kids;
  }
}
