/**
 The window tree as the X server reports it, and the helpers of
 examples/desktop-session/desktop-session.c that search it: a bounded recursive descent, a bounded climb
 to the top-level frame, and the focus test that combines them. The tree does not change meanwhile.
 */
module WindowTree {
  import opened Octets

  type Window = nat

  const NONE: Window := 0
  const POINTER_ROOT: Window := 1

  type Extent = x: int | 0 <= x <= 0xFFFF   // 16 bits in the protocol

  datatype Attributes = Attributes(viewable: bool, width: Extent, height: Extent)

  datatype Hint = Hint(resClass: Option<string>, resName: Option<string>)

  datatype Info = Info(parent: Window, kids: seq<Window>, hint: Option<Hint>, attributes: Option<Attributes>)

  // XQueryTree succeeds for exactly the windows that the server knows.
  type Server = map<Window, Info>

  /** A window hangs below its parent, which lists it. */
  ghost predicate HangsBelowParent(s: Server, depth: map<Window, nat>, w: Window)
    requires depth.Keys == s.Keys && w in s
  {
    s[w].parent in s && depth[w] == depth[s[w].parent] + 1 && w in s[s[w].parent].kids
  }

  /** Everything a window lists is its child, and listed once. */
  ghost predicate ListsItsKids(s: Server, root: Window, w: Window)
    requires w in s
  {
    && (forall k :: k in s[w].kids ==> k in s && k != root && s[k].parent == w)
    && (forall i, j :: 0 <= i < j < |s[w].kids| ==> s[w].kids[i] != s[w].kids[j])
  }

  /** A tree below `root`. Real windows are neither None nor PointerRoot. */
  ghost predicate IsTree(s: Server, root: Window, depth: map<Window, nat>) {
    && root in s && s[root].parent == NONE && NONE !in s && POINTER_ROOT !in s
    && depth.Keys == s.Keys && depth[root] == 0
    && (forall w {:trigger HangsBelowParent(s, depth, w)} :: w in s && w != root ==> HangsBelowParent(s, depth, w))
    && (forall w {:trigger ListsItsKids(s, root, w)} :: w in s ==> ListsItsKids(s, root, w))
  }

  // The tree property, one window at a time.

  lemma RootOf(s: Server, root: Window, depth: map<Window, nat>)
    requires IsTree(s, root, depth)
    ensures root in s && s[root].parent == NONE && depth.Keys == s.Keys && depth[root] == 0
    ensures NONE !in s && POINTER_ROOT !in s
  {
  }

  lemma ParentOf(s: Server, root: Window, depth: map<Window, nat>, w: Window)
    requires IsTree(s, root, depth) && w in s
    ensures depth.Keys == s.Keys && (w == root <==> depth[w] == 0)
    ensures w != root ==> s[w].parent in s && depth[w] == depth[s[w].parent] + 1 && w in s[s[w].parent].kids
    ensures w == root ==> s[w].parent == NONE
  {
    assert w != root ==> HangsBelowParent(s, depth, w);
  }

  lemma KidOf(s: Server, root: Window, depth: map<Window, nat>, w: Window, k: Window)
    requires IsTree(s, root, depth) && w in s && k in s[w].kids
    ensures k in s && k != root && s[k].parent == w && depth.Keys == s.Keys && depth[k] == depth[w] + 1
  {
    assert ListsItsKids(s, root, w);
    assert HangsBelowParent(s, depth, k);
  }

  /** The n-th ancestor. */
  function Up(s: Server, w: Window, n: nat): Window
    decreases n
  {
    if n == 0 then w else if w in s then Up(s, s[w].parent, n - 1) else NONE
  }

  lemma {:induction false} UpDepth(s: Server, root: Window, depth: map<Window, nat>, w: Window, n: nat)
    requires IsTree(s, root, depth) && w in s && n <= depth[w]
    ensures Up(s, w, n) in depth
    ensures Up(s, w, n) in s && depth[Up(s, w, n)] == depth[w] - n
    ensures Up(s, w, n) == root <==> n == depth[w]
    decreases n
  {
    hide IsTree;
    ParentOf(s, root, depth, w);
    if n > 0 {
      UpDepth(s, root, depth, s[w].parent, n - 1);
    }
  }

  lemma {:induction false} UpSnoc(s: Server, root: Window, depth: map<Window, nat>, w: Window, n: nat)
    requires IsTree(s, root, depth) && w in s && n < depth[w]
    ensures Up(s, w, n) in s && Up(s, w, n + 1) == s[Up(s, w, n)].parent
    decreases n
  {
    hide IsTree;
    UpDepth(s, root, depth, w, n);
    ParentOf(s, root, depth, w);
    if n > 0 {
      UpSnoc(s, root, depth, s[w].parent, n - 1);
    }
  }

  /** t is `a` or lies below it, at most `limit` levels down. */
  ghost predicate Within(s: Server, depth: map<Window, nat>, a: Window, t: Window, limit: int) {
    t in depth && exists n: nat :: n <= depth[t] && n <= limit && Up(s, t, n) == a
  }

  // The recursive descent.

  function InTree(s: Server, ancestor: Window, target: Window, level: nat): bool
    decreases 13 - level
  {
    if ancestor == NONE || target == NONE || level > 12 then false
    else if ancestor == target then true
    else ancestor in s && exists i :: 0 <= i < |s[ancestor].kids| && InTree(s, s[ancestor].kids[i], target, level + 1)
  }

  method WindowInTree(s: Server, ancestor: Window, target: Window, level: nat) returns (found: bool)
    ensures found == InTree(s, ancestor, target, level)
    decreases 13 - level
  {
    if ancestor == NONE || target == NONE || level > 12 {
      return false;
    }
    if ancestor == target {
      return true;
    }
    if ancestor !in s {
      return false;
    }
    var kids := s[ancestor].kids;
    found := false;
    var i := 0;
    while i < |kids| && !found
      invariant i <= |kids|
      invariant found <==> exists j :: 0 <= j < i && InTree(s, kids[j], target, level + 1)
    {
      found := WindowInTree(s, kids[i], target, level + 1);
      i := i + 1;
    }
  }

  /** The descent finds exactly what climbing from the target reaches in the levels that are left. */
  lemma {:induction false} InTreeIsWithin(s: Server, root: Window, depth: map<Window, nat>, a: Window, t: Window, level: nat)
    requires IsTree(s, root, depth) && a in s && t in s && level <= 13
    ensures InTree(s, a, t, level) <==> Within(s, depth, a, t, 12 - level)
    decreases 13 - level
  {
    hide IsTree;
    if level <= 12 {
      if InTree(s, a, t, level) {
        DescentClimbs(s, root, depth, a, t, level);
      }
      if Within(s, depth, a, t, 12 - level) {
        ClimbDescends(s, root, depth, a, t, level);
      }
    }
  }

  lemma {:induction false} DescentClimbs(s: Server, root: Window, depth: map<Window, nat>, a: Window, t: Window, level: nat)
    requires IsTree(s, root, depth) && a in s && t in s && InTree(s, a, t, level)
    ensures Within(s, depth, a, t, 12 - level)
    decreases 13 - level
  {
    hide IsTree;
    RootOf(s, root, depth);
    if a == t {
      assert Up(s, t, 0) == a;
    } else {
      var i :| 0 <= i < |s[a].kids| && InTree(s, s[a].kids[i], t, level + 1);
      var k := s[a].kids[i];
      KidOf(s, root, depth, a, k);
      DescentClimbs(s, root, depth, k, t, level + 1);
      var n: nat :| n <= depth[t] && n <= 12 - (level + 1) && Up(s, t, n) == k;
      UpDepth(s, root, depth, t, n);
      UpSnoc(s, root, depth, t, n);
      assert Up(s, t, n + 1) == a;
    }
  }

  lemma {:induction false} ClimbDescends(s: Server, root: Window, depth: map<Window, nat>, a: Window, t: Window, level: nat)
    requires IsTree(s, root, depth) && a in s && t in s && level <= 12 && Within(s, depth, a, t, 12 - level)
    ensures InTree(s, a, t, level)
    decreases 13 - level
  {
    hide IsTree;
    RootOf(s, root, depth);
    var n: nat :| n <= depth[t] && n <= 12 - level && Up(s, t, n) == a;
    if a != t {
      var k := Up(s, t, n - 1);
      UpDepth(s, root, depth, t, n - 1);
      UpSnoc(s, root, depth, t, n - 1);
      ParentOf(s, root, depth, k);
      assert Within(s, depth, k, t, 12 - (level + 1));
      ClimbDescends(s, root, depth, k, t, level + 1);
      var i :| 0 <= i < |s[a].kids| && s[a].kids[i] == k;
    }
  }

  /** The descent never finds a window that the server does not know. */
  lemma {:induction false} StrangerIsNotInTree(s: Server, root: Window, depth: map<Window, nat>, a: Window, t: Window,
                                               level: nat)
    requires IsTree(s, root, depth) && a in s && t !in s
    ensures !InTree(s, a, t, level)
    decreases 13 - level
  {
    hide IsTree;
    if level <= 12 {
      forall i | 0 <= i < |s[a].kids| ensures !InTree(s, s[a].kids[i], t, level + 1) {
        KidOf(s, root, depth, a, s[a].kids[i]);
        StrangerIsNotInTree(s, root, depth, s[a].kids[i], t, level + 1);
      }
    }
  }

  // The climb to the frame.

  method ToplevelFrame(s: Server, window: Window, root: Window, ghost depth: map<Window, nat>) returns (frame: Window)
    requires IsTree(s, root, depth)
    ensures window !in s ==> frame == window
    ensures window == root ==> frame == root
    ensures window in s && window != root ==>
              frame == if depth[window] <= 12 then Top(s, depth, window) else window
  {
    hide IsTree;
    RootOf(s, root, depth);
    if window in s {
      ParentOf(s, root, depth, window);
    }
    var current := window;
    for i := 0 to 12
      invariant window !in s || window == root ==> i == 0
      invariant current == Up(s, window, i)
      invariant window in s && window != root ==> i < depth[window]
    {
      if window in s {
        UpDepth(s, root, depth, window, i);
      }
      if current !in s {
        break;
      }
      ParentOf(s, root, depth, current);
      var parent := s[current].parent;
      if window != root {
        UpSnoc(s, root, depth, window, i);
        UpDepth(s, root, depth, window, i + 1);
      }
      if parent == NONE || parent == root {
        return current;
      }
      current := parent;
    }
    return window;
  }

  /** The child of the root that a window lies under. */
  function Top(s: Server, depth: map<Window, nat>, w: Window): Window
    requires w in depth
  {
    if depth[w] == 0 then w else Up(s, w, depth[w] - 1)
  }

  lemma WithinTop(s: Server, root: Window, depth: map<Window, nat>, w: Window, t: Window)
    requires IsTree(s, root, depth) && w in s && w != root && t in s
    ensures var top := Top(s, depth, w);
            && top in s
            && (Within(s, depth, top, t, 12) <==> t != root && Top(s, depth, t) == top && depth[t] <= 13)
  {
    hide IsTree;
    RootOf(s, root, depth);
    ParentOf(s, root, depth, w);
    ParentOf(s, root, depth, t);
    var top := Top(s, depth, w);
    UpDepth(s, root, depth, w, depth[w] - 1);
    if Within(s, depth, top, t, 12) {
      var n: nat :| n <= depth[t] && n <= 12 && Up(s, t, n) == top;
      UpDepth(s, root, depth, t, n);
      assert n == depth[t] - 1;
    }
    if t != root && Top(s, depth, t) == top && depth[t] <= 13 {
      assert Up(s, t, depth[t] - 1) == top;
    }
  }

  /** The focus lies within twelve levels of the client, or of its frame when the climb reaches that. */
  ghost predicate Belongs(s: Server, root: Window, depth: map<Window, nat>, client: Window, focus: Window)
    requires client in depth && focus in depth
  {
    || Within(s, depth, client, focus, 12)
    || (depth[client] <= 12 && 0 < depth[focus] <= 13
        && Top(s, depth, focus) == Top(s, depth, client))
  }

  lemma WithinSelf(s: Server, depth: map<Window, nat>, w: Window)
    requires w in depth
    ensures Within(s, depth, w, w, 12)
  {
    assert Up(s, w, 0) == w;
  }

  method FocusBelongs(s: Server, root: Window, client: Window, focus: Window, ghost depth: map<Window, nat>)
    returns (yes: bool)
    requires IsTree(s, root, depth) && client in s && client != root
    ensures yes <==> focus in s && Belongs(s, root, depth, client, focus)
  {
    hide IsTree;
    hide Within;
    RootOf(s, root, depth);
    if focus == NONE || focus == POINTER_ROOT {
      return false;
    }
    ParentOf(s, root, depth, client);
    if focus in s {
      ParentOf(s, root, depth, focus);
      InTreeIsWithin(s, root, depth, client, focus, 0);
      WithinTop(s, root, depth, client, focus);
      InTreeIsWithin(s, root, depth, Top(s, depth, client), focus, 0);
      WithinSelf(s, depth, focus);
    } else {
      StrangerIsNotInTree(s, root, depth, client, focus, 0);
      WithinTop(s, root, depth, client, client);
      StrangerIsNotInTree(s, root, depth, Top(s, depth, client), focus, 0);
    }
    if focus == client {
      return true;
    }
    var below := WindowInTree(s, client, focus, 0);
    if below {
      return true;
    }
    var frame := ToplevelFrame(s, client, root, depth);
    var belowFrame := WindowInTree(s, frame, focus, 0);
    yes := focus == frame || belowFrame;
  }

  /**
   A focus that belongs lies under the same child of the root as the client. With the client at most twelve and the
   focus at most thirteen levels deep, in particular on any tree of height at most twelve, that is all there is to it.
   */
  lemma BelongsIsSameTop(s: Server, root: Window, depth: map<Window, nat>, client: Window, focus: Window)
    requires IsTree(s, root, depth) && client in s && client != root && focus in s
    ensures Belongs(s, root, depth, client, focus) ==> focus != root && Top(s, depth, focus) == Top(s, depth, client)
    ensures depth[client] <= 12 && depth[focus] <= 13 ==>
              (Belongs(s, root, depth, client, focus)
               <==> focus != root && Top(s, depth, focus) == Top(s, depth, client))
  {
    hide IsTree;
    ParentOf(s, root, depth, focus);
    if Within(s, depth, client, focus, 12) {
      var n: nat :| n <= depth[focus] && n <= 12 && Up(s, focus, n) == client;
      UpDepth(s, root, depth, focus, n);
      UpAdds(s, root, depth, focus, n, depth[client] - 1);
    }
  }

  lemma {:induction false} UpAdds(s: Server, root: Window, depth: map<Window, nat>, w: Window, n: nat, m: nat)
    requires IsTree(s, root, depth) && w in s && n + m <= depth[w]
    ensures Up(s, Up(s, w, n), m) == Up(s, w, n + m)
    decreases n
  {
    hide IsTree;
    ParentOf(s, root, depth, w);
    if n > 0 {
      UpAdds(s, root, depth, s[w].parent, n - 1, m);
    }
  }
}
