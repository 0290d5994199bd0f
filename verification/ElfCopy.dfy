/**
 Copying the closure into one flat directory (tools/resolve-elf-deps.py, the --copy-to part), and the
 guarantee of the whole run: the directory is self-contained.
 */
module ElfCopy {
  import opened Octets
  import opened ElfDeps

  // The destination: file name to contents.
  type Directory = map<string, Bytes>

  datatype Collision = Collision(name: string, existing: Path, path: Path)

  predicate Excluded(roots: seq<Path>, p: Path) {
    exists r :: r in roots && r <= p
  }

  /** A path is excluded exactly if it is one of the roots or lies below one. */
  lemma ExcludedMeans(roots: seq<Path>, p: Path)
    ensures Excluded(roots, p) <==> exists i, below :: 0 <= i < |roots| && p == roots[i] + below
  {
    if r :| r in roots && r <= p {
      var i :| 0 <= i < |roots| && roots[i] == r;
      assert p == roots[i] + p[|r|..];
    }
    if i, below :| 0 <= i < |roots| && p == roots[i] + below {
      assert roots[i] in roots && roots[i] <= p;
    }
  }

  function NamesFor(copyNames: map<Path, set<string>>, p: Path): set<string> {
    if p in copyNames then copyNames[p] else {Name(p)}
  }

  /** The copy phase wants to store object p under name n. */
  ghost predicate Placed(order: seq<Path>, copyNames: map<Path, set<string>>, roots: seq<Path>, p: Path, n: string) {
    p in order && !Excluded(roots, p) && n in NamesFor(copyNames, p)
  }

  /** Two objects with different bytes want the same name. */
  ghost predicate Clash(content: map<Path, Bytes>, order: seq<Path>, copyNames: map<Path, set<string>>,
                        roots: seq<Path>, c: Collision) {
    && Placed(order, copyNames, roots, c.existing, c.name)
    && Placed(order, copyNames, roots, c.path, c.name)
    && c.existing in content && c.path in content && content[c.existing] != content[c.path]
  }

  /**
   The state of the copy phase when the (object, name) pairs in `stored` are done. Which object a name
   was copied from is in `copied`; files that were there before keep their bytes.
   */
  ghost predicate CopyInv(content: map<Path, Bytes>, initial: Directory, stored: set<(Path, string)>,
                          copied: map<string, Path>, directory: Directory) {
    && (forall n :: n in copied ==> (copied[n], n) in stored && copied[n] in content)
    && (forall p, n :: (p, n) in stored ==>
          p in content && n in copied && content[copied[n]] == content[p])
    && directory.Keys == initial.Keys + copied.Keys
    && forall n :: n in directory ==> directory[n] == if n in initial then initial[n] else content[copied[n]]
  }

  lemma CopyStep(content: map<Path, Bytes>, initial: Directory, stored: set<(Path, string)>,
                 copied: map<string, Path>, directory: Directory, path: Path, name: string)
    requires CopyInv(content, initial, stored, copied, directory) && path in content
    requires name in copied ==> content[copied[name]] == content[path]
    ensures CopyInv(content, initial, stored + {(path, name)}, copied[name := path],
                    if name in directory then directory else directory[name := content[path]])
  {
  }

  /** Every pair (p, n) that the objects in `order` ask for. */
  ghost function Pairs(order: seq<Path>, copyNames: map<Path, set<string>>, roots: seq<Path>): set<(Path, string)> {
    set p, n | p in order && !Excluded(roots, p) && n in NamesFor(copyNames, p) :: (p, n)
  }

  ghost function Under(path: Path, names: set<string>): set<(Path, string)> {
    set n | n in names :: (path, n)
  }

  lemma PairsSnoc(order: seq<Path>, path: Path, copyNames: map<Path, set<string>>, roots: seq<Path>)
    ensures Excluded(roots, path) ==> Pairs(order + [path], copyNames, roots) == Pairs(order, copyNames, roots)
    ensures !Excluded(roots, path) ==> Pairs(order + [path], copyNames, roots)
                                       == Pairs(order, copyNames, roots) + Under(path, NamesFor(copyNames, path))
  {
  }

  lemma PairsClash(content: map<Path, Bytes>, order: seq<Path>, copyNames: map<Path, set<string>>, roots: seq<Path>,
                   c: Collision)
    requires (c.existing, c.name) in Pairs(order, copyNames, roots)
    requires (c.path, c.name) in Pairs(order, copyNames, roots)
    requires c.existing in content && c.path in content && content[c.existing] != content[c.path]
    ensures Clash(content, order, copyNames, roots, c)
  {
  }

  lemma NoClash(content: map<Path, Bytes>, initial: Directory, order: seq<Path>, copyNames: map<Path, set<string>>,
                roots: seq<Path>, copied: map<string, Path>, directory: Directory)
    requires CopyInv(content, initial, Pairs(order, copyNames, roots), copied, directory)
    ensures forall c :: !Clash(content, order, copyNames, roots, c)
  {
    forall c: Collision
      | Placed(order, copyNames, roots, c.existing, c.name) && Placed(order, copyNames, roots, c.path, c.name)
      ensures c.existing in content && c.path in content && content[c.existing] == content[c.path]
    {
      assert (c.existing, c.name) in Pairs(order, copyNames, roots);
      assert (c.path, c.name) in Pairs(order, copyNames, roots);
    }
  }

  lemma CopiedFrom(content: map<Path, Bytes>, initial: Directory, stored: set<(Path, string)>,
                   copied: map<string, Path>, directory: Directory)
    requires CopyInv(content, initial, stored, copied, directory)
    ensures forall n :: n in copied ==> (copied[n], n) in stored && copied[n] in content
  {
  }

  /**
   Stores one object under each of its names. The tool takes the names in sorted order; the order only
   decides which clash is reported.
   */
  method CopyObject(content: map<Path, Bytes>, ghost initial: Directory, ghost before: set<(Path, string)>,
                    path: Path, names: set<string>, from: map<string, Path>, directory: Directory)
    returns (from': map<string, Path>, directory': Directory, clash: Option<string>)
    requires CopyInv(content, initial, before, from, directory) && path in content
    ensures clash.None? ==> CopyInv(content, initial, before + Under(path, names), from', directory')
    ensures clash.Some? ==>
              && clash.value in names && clash.value in from'
              && (from'[clash.value], clash.value) in before + Under(path, names)
              && from'[clash.value] in content && content[from'[clash.value]] != content[path]
  {
    hide CopyInv;
    from', directory', clash := from, directory, None;
    var todo := names;
    ghost var finished: set<string> := {};
    assert before + Under(path, finished) == before;
    while todo != {}
      invariant finished + todo == names && CopyInv(content, initial, before + Under(path, finished), from', directory')
      decreases todo
    {
      var name :| name in todo;
      CopiedFrom(content, initial, before + Under(path, finished), from', directory');
      if name in from' && content[from'[name]] != content[path] {
        return from', directory', Some(name);
      }
      CopyStep(content, initial, before + Under(path, finished), from', directory', path, name);
      assert before + Under(path, finished + {name}) == before + Under(path, finished) + {(path, name)};
      if name !in directory' {
        directory' := directory'[name := content[path]];
      }
      from' := from'[name := path];
      todo := todo - {name};
      finished := finished + {name};
    }
    assert finished == names;
  }

  /** The copy phase. It stops at a clash if there is one, and otherwise stores every object. */
  method CopyTree(content: map<Path, Bytes>, order: seq<Path>, copyNames: map<Path, set<string>>,
                  roots: seq<Path>, initial: Directory)
    returns (directory: Directory, copied: map<string, Path>, collision: Option<Collision>)
    requires forall p :: p in order ==> p in content
    ensures collision.Some? <==> exists c :: Clash(content, order, copyNames, roots, c)
    ensures collision.Some? ==> Clash(content, order, copyNames, roots, collision.value)
    ensures collision.None? ==> CopyInv(content, initial, Pairs(order, copyNames, roots), copied, directory)
  {
    hide CopyInv;
    hide Clash;
    hide Pairs;
    hide Excluded;
    directory, copied, collision := initial, map[], None;
    NothingCopied(content, copyNames, roots, initial);
    for i := 0 to |order|
      invariant CopyInv(content, initial, Pairs(order[..i], copyNames, roots), copied, directory)
    {
      var path := order[i];
      assert order[..i + 1] == order[..i] + [path];
      PairsSnoc(order[..i], path, copyNames, roots);
      if Excluded(roots, path) {
        continue;
      }
      var clash: Option<string>;
      copied, directory, clash :=
        CopyObject(content, initial, Pairs(order[..i], copyNames, roots), path, NamesFor(copyNames, path), copied, directory);
      if clash.Some? {
        collision := Some(Collision(clash.value, copied[clash.value], path));
        PairsMonotone(order, i + 1, copyNames, roots);
        PairsClash(content, order, copyNames, roots, collision.value);
        return;
      }
    }
    assert order[..|order|] == order;
    NoClash(content, initial, order, copyNames, roots, copied, directory);
  }

  lemma NothingCopied(content: map<Path, Bytes>, copyNames: map<Path, set<string>>, roots: seq<Path>,
                      initial: Directory)
    ensures CopyInv(content, initial, Pairs([], copyNames, roots), map[], initial)
  {
  }

  lemma PairsMonotone(order: seq<Path>, i: nat, copyNames: map<Path, set<string>>, roots: seq<Path>)
    requires i <= |order|
    ensures Pairs(order[..i], copyNames, roots) <= Pairs(order, copyNames, roots)
  {
    assert forall p :: p in order[..i] ==> p in order;
  }

  // The whole run.

  datatype Outcome =
    | Unreadable(path: Path)                    // readelf failed
    | Collided(collision: Collision)            // "SONAME collision"
    | Finished(tables: Tables, directory: Directory, status: nat)

  /** The run is to store object d under name n: as an entry's basename, or as a name that something needs. */
  ghost predicate Wanted(w: World, arguments: seq<Path>, roots: seq<Path>, n: string, d: Path) {
    !Excluded(roots, d) && (EntryName(w, arguments, n, d) || NeededName(w, arguments, n, d))
  }

  ghost predicate EntryName(w: World, arguments: seq<Path>, n: string, d: Path) {
    exists a :: a in arguments && w.Resolve(a) == d && Name(a) == n
  }

  ghost predicate NeededName(w: World, arguments: seq<Path>, n: string, d: Path) {
    exists o :: w.Reachable(arguments, o) && n in w.Needed(o) && w.Dependency(o, n) == Some(d)
  }

  /** Two objects with different bytes are to be stored under one name. */
  ghost predicate SonameClash(w: World, arguments: seq<Path>, roots: seq<Path>, c: Collision) {
    && Wanted(w, arguments, roots, c.name, c.existing) && Wanted(w, arguments, roots, c.name, c.path)
    && c.existing in w.content && c.path in w.content && w.content[c.existing] != w.content[c.path]
  }

  ghost predicate Held(w: World, directory: Directory, n: string, d: Path) {
    n in directory && d in w.content && directory[n] == w.content[d]
  }

  /**
   The whole directory after the run: files that were there are kept, the wanted names that were free hold
   their objects, and nothing else is added.
   */
  ghost predicate Written(w: World, arguments: seq<Path>, roots: seq<Path>, initial: Directory, directory: Directory) {
    && (forall n :: n in initial ==> n in directory && directory[n] == initial[n])
    && (forall n, d :: Wanted(w, arguments, roots, n, d) ==>
          n in directory && d in w.content && (n in initial || directory[n] == w.content[d]))
    && (forall n :: n in directory && n !in initial ==> exists d :: Wanted(w, arguments, roots, n, d))
  }

  /** A loader that looks only into the directory and the excluded roots finds what it would have found. */
  ghost predicate SelfContained(w: World, arguments: seq<Path>, roots: seq<Path>, missing: map<string, seq<Path>>,
                                directory: Directory) {
    && (forall o, n :: w.Reachable(arguments, o) && n in w.Needed(o) ==>
          match w.Dependency(o, n)
          case None => n in missing && o in missing[n]
          case Some(d) => Excluded(roots, d) || Held(w, directory, n, d))
    && (forall a :: a in arguments ==> Excluded(roots, w.Resolve(a)) || Held(w, directory, Name(a), w.Resolve(a)))
  }

  /** No file was there before under a wanted name with other bytes. */
  ghost predicate NothingStale(w: World, arguments: seq<Path>, roots: seq<Path>, initial: Directory) {
    forall n, d :: Wanted(w, arguments, roots, n, d) && n in initial ==> d in w.content && initial[n] == w.content[d]
  }

  /** The tables of a finished run place exactly the wanted names. */
  lemma PlacedIsWanted(w: World, arguments: seq<Path>, roots: seq<Path>, t: Tables, n: string, d: Path)
    requires Complete(w, arguments, t)
    ensures Placed(t.order, t.copyNames, roots, d, n) <==> Wanted(w, arguments, roots, n, d)
  {
    hide World.Reachable;
    hide World.Dependency;
    hide Excluded;
    hide MissingExact;
    var all := AllNeeded(w, t);
    assert HasName(t.copyNames, d, n) <==> NamedBy(w, arguments, all, d, n);
    assert HasName(t.copyNames, d, n) <==> d in t.order && n in NamesFor(t.copyNames, d);
    if NeededName(w, arguments, n, d) {
      var o :| w.Reachable(arguments, o) && n in w.Needed(o) && w.Dependency(o, n) == Some(d);
      assert o in all && n in all[o];
    }
  }

  lemma ClashIsSonameClash(w: World, arguments: seq<Path>, roots: seq<Path>, t: Tables)
    requires Complete(w, arguments, t)
    ensures forall c :: Clash(w.content, t.order, t.copyNames, roots, c) <==> SonameClash(w, arguments, roots, c)
  {
    hide Complete;
    hide Placed;
    hide Wanted;
    forall c ensures Clash(w.content, t.order, t.copyNames, roots, c) <==> SonameClash(w, arguments, roots, c) {
      PlacedIsWanted(w, arguments, roots, t, c.name, c.existing);
      PlacedIsWanted(w, arguments, roots, t, c.name, c.path);
    }
  }

  lemma CopiedIsWritten(w: World, arguments: seq<Path>, roots: seq<Path>, initial: Directory, t: Tables,
                        copied: map<string, Path>, directory: Directory)
    requires Complete(w, arguments, t)
    requires CopyInv(w.content, initial, Pairs(t.order, t.copyNames, roots), copied, directory)
    ensures Written(w, arguments, roots, initial, directory)
  {
    hide Complete;
    hide Wanted;
    var stored := Pairs(t.order, t.copyNames, roots);
    forall n, d ensures (d, n) in stored <==> Wanted(w, arguments, roots, n, d) {
      PlacedIsWanted(w, arguments, roots, t, n, d);
    }
    hide Pairs;
    forall n | n in directory && n !in initial ensures exists d :: Wanted(w, arguments, roots, n, d) {
      assert (copied[n], n) in stored;
    }
  }

  /** The directory is self-contained exactly when no stale file was in the way. */
  lemma SelfContainedIffNothingStale(w: World, arguments: seq<Path>, roots: seq<Path>, initial: Directory, t: Tables,
                                     directory: Directory)
    requires Complete(w, arguments, t) && Written(w, arguments, roots, initial, directory)
    ensures SelfContained(w, arguments, roots, t.missing, directory) <==> NothingStale(w, arguments, roots, initial)
  {
    hide World.Reachable;
    hide World.Dependency;
    hide Complete;
    hide Excluded;
    forall o, n | w.Reachable(arguments, o) && n in w.Needed(o) && w.Dependency(o, n).None?
      ensures n in t.missing && o in t.missing[n]
    {
      NeededIsRecorded(w, arguments, t, o, n);
    }
    if NothingStale(w, arguments, roots, initial) {
      HeldWithoutStale(w, arguments, roots, initial, directory);
    }
    if SelfContained(w, arguments, roots, t.missing, directory) {
      forall n, d | Wanted(w, arguments, roots, n, d) ensures Held(w, directory, n, d) {
      }
    }
  }

  lemma HeldWithoutStale(w: World, arguments: seq<Path>, roots: seq<Path>, initial: Directory, directory: Directory)
    requires Written(w, arguments, roots, initial, directory) && NothingStale(w, arguments, roots, initial)
    ensures forall o, n, d :: w.Reachable(arguments, o) && n in w.Needed(o) && w.Dependency(o, n) == Some(d)
                              ==> Excluded(roots, d) || Held(w, directory, n, d)
    ensures forall a :: a in arguments ==> Excluded(roots, w.Resolve(a)) || Held(w, directory, Name(a), w.Resolve(a))
  {
    hide World.Reachable;
    hide World.Dependency;
    hide Excluded;
    forall o, n, d | w.Reachable(arguments, o) && n in w.Needed(o) && w.Dependency(o, n) == Some(d)
      ensures Excluded(roots, d) || Held(w, directory, n, d)
    {
      assert Excluded(roots, d) || Wanted(w, arguments, roots, n, d);
    }
    forall a | a in arguments ensures Excluded(roots, w.Resolve(a)) || Held(w, directory, Name(a), w.Resolve(a)) {
      assert Excluded(roots, w.Resolve(a)) || Wanted(w, arguments, roots, Name(a), w.Resolve(a));
    }
  }

  lemma NeededIsRecorded(w: World, arguments: seq<Path>, t: Tables, o: Path, n: string)
    requires Complete(w, arguments, t) && w.Reachable(arguments, o) && n in w.Needed(o)
    ensures match w.Dependency(o, n)
            case None => n in t.missing && o in t.missing[n]
            case Some(d) => HasName(t.copyNames, d, n)
  {
    hide World.Reachable;
    hide World.Dependency;
    hide Recorded;
    var all := AllNeeded(w, t);
    assert o in all && n in all[o];
    match w.Dependency(o, n)
    case None => assert Occurrences(t.missing, n, o) == Unresolved(w, all, n, o);
    case Some(d) => assert NamedBy(w, arguments, all, d, n);
  }

  ghost predicate AnyMissing(w: World, arguments: seq<Path>) {
    exists o, n :: w.Reachable(arguments, o) && n in w.Needed(o) && w.Dependency(o, n).None?
  }

  lemma MissingIffAny(w: World, arguments: seq<Path>, t: Tables)
    requires Complete(w, arguments, t)
    ensures t.missing == map[] <==> !AnyMissing(w, arguments)
  {
    hide World.Reachable;
    hide World.Dependency;
    var all := AllNeeded(w, t);
    if t.missing != map[] {
      var n :| n in t.missing;
      var o := t.missing[n][0];
      assert Occurrences(t.missing, n, o) == Unresolved(w, all, n, o);
    }
    if AnyMissing(w, arguments) {
      var o, n :| w.Reachable(arguments, o) && n in w.Needed(o) && w.Dependency(o, n).None?;
      assert o in all && n in all[o];
      assert Occurrences(t.missing, n, o) == Unresolved(w, all, n, o);
    }
  }

  /**
   The whole tool: builds the index from the listing of the search roots, runs the resolver and, when a
   destination is given, the copy phase. What it promises is about the file system seen through that index.
   */
  method ResolveAndCopy(links: map<Path, Path>, files: set<Path>, elf: map<Path, Elf>, content: map<Path, Bytes>,
                        listing: seq<Path>, arguments: seq<Path>, roots: seq<Path>, copyTo: Option<Directory>)
    returns (outcome: Outcome, index: map<string, seq<Path>>)
    requires (forall p :: p in links ==> links[p] !in links) && elf.Keys <= content.Keys
    ensures Indexes(links, listing, index)
    ensures var w := World(links, files, elf, content, index);
            forall o, n :: o in elf ==> FirstChoice(w, listing, o, n, w.Dependency(o, n))
    ensures outcome.Unreadable? <==>
            exists p :: World(links, files, elf, content, index).Reachable(arguments, p) && p !in elf
    ensures outcome.Collided? ==>
              copyTo.Some? && SonameClash(World(links, files, elf, content, index), arguments, roots, outcome.collision)
    ensures outcome.Finished? ==>
              var w := World(links, files, elf, content, index);
              && Complete(w, arguments, outcome.tables) && MissingInOrder(w, outcome.tables)
              && outcome.status == (if AnyMissing(w, arguments) then 3 else 0)
    ensures outcome.Finished? && copyTo.Some? ==>
              var w := World(links, files, elf, content, index);
              && (forall c :: !SonameClash(w, arguments, roots, c))
              && Written(w, arguments, roots, copyTo.value, outcome.directory)
              && (SelfContained(w, arguments, roots, outcome.tables.missing, outcome.directory)
                  <==> NothingStale(w, arguments, roots, copyTo.value))
    ensures outcome.Finished? && copyTo == Some(map[]) ==>
              SelfContained(World(links, files, elf, content, index), arguments, roots, outcome.tables.missing,
                            outcome.directory)
  {
    hide World.Reachable;
    hide MissingExact;
    hide NamesExact;
    hide AnyMissing;
    hide SelfContained;
    hide CopyInv;
    hide Clash;
    hide SonameClash;
    hide Written;
    hide Wanted;
    hide Start;
    hide Indexes;
    hide FirstChoice;
    hide MissingInOrder;
    index := BuildIndex(links, listing);
    var w := World(links, files, elf, content, index);
    forall o, n | o in elf ensures FirstChoice(w, listing, o, n, w.Dependency(o, n)) {
      DependencyIsFirstChoice(w, listing, o, n);
    }
    var resolver := new Closure(w, arguments);
    var unreadable := resolver.Run(arguments);
    if unreadable.Some? {
      outcome := Unreadable(unreadable.value);
      return;
    }
    var tables := resolver.State();
    CompleteReadable(w, arguments, tables);
    ClashIsSonameClash(w, arguments, roots, tables);
    var directory: Directory := map[];
    if copyTo.Some? {
      var copied: map<string, Path>, collision: Option<Collision>;
      directory, copied, collision := CopyTree(content, tables.order, tables.copyNames, roots, copyTo.value);
      if collision.Some? {
        outcome := Collided(collision.value);
        return;
      }
      CopiedIsWritten(w, arguments, roots, copyTo.value, tables, copied, directory);
      SelfContainedIffNothingStale(w, arguments, roots, copyTo.value, tables, directory);
    }
    MissingIffAny(w, arguments, tables);
    outcome := Finished(tables, directory, if tables.missing != map[] then 3 else 0);
  }

  // Where the guarantee ends: an application that needs one library, and a stale file of the library's name.

  const APP: Path := ["app"]
  const LIB: Path := ["lib", "b"]

  /** The run succeeds with status 0, and the directory holds other bytes than the library's under its name. */
  method StaleRun() returns (outcome: Outcome, index: map<string, seq<Path>>)
    ensures outcome.Finished? && outcome.status == 0
    ensures var w := StaleWorld(index);
            && NeededName(w, [APP], "b", LIB) && "b" in outcome.directory && outcome.directory["b"] != w.content[LIB]
            && !SelfContained(w, [APP], [], outcome.tables.missing, outcome.directory)
  {
    outcome, index := ResolveAndCopy(map[], {}, map[APP := Elf(["b"], [], [], None), LIB := Elf([], [], [], None)],
                                     map[APP := [1], LIB := [2]], [LIB], [APP], [], Some(map["b" := [9]]));
    StaleGraph(index);
    hide Wanted;
    hide NeededName;
    hide World.Reachable;
    hide Complete;
  }

  function StaleWorld(index: map<string, seq<Path>>): World {
    World(map[], {}, map[APP := Elf(["b"], [], [], None), LIB := Elf([], [], [], None)], map[APP := [1], LIB := [2]],
          index)
  }

  lemma StaleGraph(index: map<string, seq<Path>>)
    requires Indexes(map[], [LIB], index)
    ensures var w := StaleWorld(index);
            && (forall p :: w.Reachable([APP], p) ==> p in {APP, LIB})
            && (forall c :: !SonameClash(w, [APP], [], c))
            && NeededName(w, [APP], "b", LIB) && Wanted(w, [APP], [], "b", LIB) && !AnyMissing(w, [APP])
  {
    var w := StaleWorld(index);
    StaleEdges(index);
    hide Indexes;
    hide World.Dependency;
    hide World.Needed;
    hide StaleWorld;
    StaleReachable(w);
    hide World.Reachable;
    assert NeededName(w, [APP], "b", LIB) && !Excluded([], LIB);
    forall n, d | Wanted(w, [APP], [], n, d) ensures (n, d) in {("app", APP), ("b", LIB)} {
      StaleWanted(w, n, d);
    }
    NoStaleClash(w);
  }

  lemma NoStaleClash(w: World)
    requires forall n, d :: Wanted(w, [APP], [], n, d) ==> (n, d) in {("app", APP), ("b", LIB)}
    ensures forall c :: !SonameClash(w, [APP], [], c)
  {
    hide Wanted;
    forall c | SonameClash(w, [APP], [], c) ensures c.existing == c.path {
      assert (c.name, c.existing) in {("app", APP), ("b", LIB)} && (c.name, c.path) in {("app", APP), ("b", LIB)};
    }
  }

  // The edges of the example.
  ghost predicate OneEdge(w: World) {
    && w.Resolve(APP) == APP && w.Needed(APP) == ["b"] && w.Dependency(APP, "b") == Some(LIB)
    && forall o :: o != APP ==> w.Needed(o) == []
  }

  lemma StaleReachable(w: World)
    requires OneEdge(w)
    ensures w.Reachable([APP], APP) && forall p :: w.Reachable([APP], p) ==> p in {APP, LIB}
  {
    hide World.Dependency;
    hide World.Needed;
    hide World.Resolve;
    hide World.Reachable;
    assert APP in [APP] && w.Entry([APP], APP);
    EntryReachable(w, [APP], APP);
    forall o, t | w.Edge(o, t) ensures t == LIB {
      var n :| n in w.Needed(o) && w.Dependency(o, n) == Some(t);
      assert o == APP;
    }
    ClosedCoversReachable(w, [APP], {APP, LIB});
  }

  lemma StaleWanted(w: World, n: string, d: Path)
    requires OneEdge(w) && Wanted(w, [APP], [], n, d)
    ensures (n, d) in {("app", APP), ("b", LIB)}
  {
    hide World.Dependency;
    hide World.Needed;
    hide World.Resolve;
    hide World.Reachable;
    if EntryName(w, [APP], n, d) {
      assert n == "app" && d == APP;
    } else {
      var o :| w.Reachable([APP], o) && n in w.Needed(o) && w.Dependency(o, n) == Some(d);
      assert o == APP;
    }
  }

  lemma StaleEdges(index: map<string, seq<Path>>)
    requires Indexes(map[], [LIB], index)
    ensures OneEdge(StaleWorld(index))
  {
    var w := StaleWorld(index);
    assert Listed(map[], [LIB], "b") == [LIB] by {
      assert [LIB][..0] == [];
    }
    assert IndexedAs(index, "b", Listed(map[], [LIB], "b"));
    assert w.Local([], "b") == [];
    assert w.Candidates(APP, "b") == [LIB];
  }
}