/**
 The recursive DT_NEEDED closure of a set of ELF objects, and the copy of that closure into one
 directory (tools/resolve-elf-deps.py).

 The file system is a value: what a path resolves to, which paths exist, what readelf reports for an
 object, and file contents. The object graph has an edge from an owner to the first candidate of each
 name it needs; it is finite but may be cyclic.
 */
module ElfDeps {
  import opened Octets

  // A path is the sequence of its components.
  type Path = seq<string>

  function Name(p: Path): string {
    if p == [] then "" else p[|p| - 1]
  }

  // What readelf reports: `runpath` as it stands there, `runpaths` expanded against the owner's directory.
  datatype Elf = Elf(needed: seq<string>, runpath: seq<string>, runpaths: seq<Path>, interpreter: Option<string>)

  datatype World = World(
    links: map<Path, Path>,            // where a path leads when it does not resolve to itself
    files: set<Path>,                  // paths for which exists() holds
    elf: map<Path, Elf>,               // objects that readelf can read
    content: map<Path, Bytes>,
    index: map<string, seq<Path>>      // file name to the resolved paths below the search roots
  ) {
    ghost predicate Valid() {
      && (forall p :: p in links ==> links[p] !in links)
      && elf.Keys <= content.Keys
    }

    function Resolve(p: Path): (r: Path) {
      if p in links then links[p] else p
    }

    function Local(dirs: seq<Path>, soname: string): seq<Path> {
      if dirs == [] then []
      else (if dirs[0] + [soname] in files then [dirs[0] + [soname]] else []) + Local(dirs[1..], soname)
    }

    function Candidates(owner: Path, soname: string): seq<Path>
      requires owner in elf
    {
      Local(elf[owner].runpaths, soname) + (if soname in index then index[soname] else [])
    }

    /** The object that satisfies the owner's dependency on soname, if there is one. */
    function Dependency(owner: Path, soname: string): Option<Path> {
      if owner !in elf || Candidates(owner, soname) == [] then None
      else Some(Resolve(Candidates(owner, soname)[0]))
    }

    function Needed(owner: Path): seq<string> {
      if owner in elf then elf[owner].needed else []
    }

    // The graph and what the entries reach in it.

    ghost predicate Edge(owner: Path, target: Path) {
      exists n :: n in Needed(owner) && Dependency(owner, n) == Some(target)
    }

    ghost predicate Entry(arguments: seq<Path>, p: Path) {
      exists a :: a in arguments && Resolve(a) == p
    }

    ghost predicate Walk(arguments: seq<Path>, walk: seq<Path>) {
      && walk != []
      && Entry(arguments, walk[0])
      && forall i :: 0 <= i < |walk| - 1 ==> Edge(walk[i], walk[i + 1])
    }

    ghost predicate Reachable(arguments: seq<Path>, p: Path) {
      exists walk :: Walk(arguments, walk) && walk[|walk| - 1] == p
    }

    /** All objects that can ever enter the queue. */
    ghost function Universe(arguments: seq<Path>): set<Path> {
      (set a | a in arguments :: Resolve(a))
      + (set f | f in files :: Resolve(f))
      + (set n, i | n in index && 0 <= i < |index[n]| :: Resolve(index[n][i]))
    }
  }

  lemma EntryReachable(w: World, arguments: seq<Path>, p: Path)
    requires w.Entry(arguments, p)
    ensures w.Reachable(arguments, p)
  {
    assert w.Walk(arguments, [p]);
  }

  lemma EdgeReachable(w: World, arguments: seq<Path>, owner: Path, target: Path)
    requires w.Reachable(arguments, owner) && w.Edge(owner, target)
    ensures w.Reachable(arguments, target)
  {
    var walk :| w.Walk(arguments, walk) && walk[|walk| - 1] == owner;
    var longer := walk + [target];
    forall i | 0 <= i < |longer| - 1 ensures w.Edge(longer[i], longer[i + 1]) {
      if i < |walk| - 1 {
        assert w.Edge(walk[i], walk[i + 1]);
      }
    }
    assert w.Walk(arguments, longer);
  }

  /** A set that holds the entries and is closed under edges holds everything reachable. */
  lemma ClosedCoversReachable(w: World, arguments: seq<Path>, closed: set<Path>)
    requires forall p :: w.Entry(arguments, p) ==> p in closed
    requires forall o, t :: o in closed && w.Edge(o, t) ==> t in closed
    ensures forall p :: w.Reachable(arguments, p) ==> p in closed
  {
    forall p | w.Reachable(arguments, p) ensures p in closed {
      var walk :| w.Walk(arguments, walk) && walk[|walk| - 1] == p;
      WalkStaysInside(w, arguments, closed, walk);
    }
  }

  lemma {:induction false} WalkStaysInside(w: World, arguments: seq<Path>, closed: set<Path>, walk: seq<Path>)
    requires forall p :: w.Entry(arguments, p) ==> p in closed
    requires forall o, t :: o in closed && w.Edge(o, t) ==> t in closed
    requires w.Walk(arguments, walk)
    ensures walk[|walk| - 1] in closed
  {
    if |walk| > 1 {
      var shorter := walk[..|walk| - 1];
      assert forall i :: 0 <= i < |shorter| - 1 ==> w.Edge(walk[i], walk[i + 1]);
      WalkStaysInside(w, arguments, closed, shorter);
      assert w.Edge(walk[|walk| - 2], walk[|walk| - 2 + 1]);
    }
  }

  lemma {:induction false} LocalIsFiles(w: World, dirs: seq<Path>, soname: string)
    ensures forall c :: c in w.Local(dirs, soname) ==> c in w.files
  {
    if dirs != [] {
      LocalIsFiles(w, dirs[1..], soname);
    }
  }

  lemma DependencyInUniverse(w: World, arguments: seq<Path>, owner: Path, soname: string)
    requires w.Dependency(owner, soname).Some?
    ensures w.Dependency(owner, soname).value in w.Universe(arguments)
  {
    var candidates := w.Candidates(owner, soname);
    var local := w.Local(w.elf[owner].runpaths, soname);
    LocalIsFiles(w, w.elf[owner].runpaths, soname);
    if local != [] {
      assert candidates[0] == local[0];
    } else {
      assert candidates[0] == w.index[soname][0];
    }
  }

  /**
   The table from file name to resolved paths. The listing is what walking the search roots yields, in
   order; each name keeps its paths in that order.
   */
  ghost function Listed(links: map<Path, Path>, listing: seq<Path>, name: string): seq<Path> {
    if listing == [] then []
    else
      var last := listing[|listing| - 1];
      Listed(links, listing[..|listing| - 1], name)
      + if Name(last) == name then [if last in links then links[last] else last] else []
  }

  ghost predicate IndexedAs(index: map<string, seq<Path>>, name: string, paths: seq<Path>) {
    (name in index <==> paths != []) && (name in index ==> index[name] == paths)
  }

  ghost predicate Indexes(links: map<Path, Path>, listing: seq<Path>, index: map<string, seq<Path>>) {
    forall n :: IndexedAs(index, n, Listed(links, listing, n))
  }

  lemma ListedSnoc(links: map<Path, Path>, listing: seq<Path>, path: Path, n: string)
    ensures Listed(links, listing + [path], n)
            == Listed(links, listing, n)
               + if Name(path) == n then [if path in links then links[path] else path] else []
  {
    assert (listing + [path])[..|listing|] == listing;
  }

  lemma IndexStep(links: map<Path, Path>, listing: seq<Path>, index: map<string, seq<Path>>, path: Path)
    requires Indexes(links, listing, index)
    ensures Indexes(links, listing + [path],
                    index[Name(path) := (if Name(path) in index then index[Name(path)] else [])
                                        + [if path in links then links[path] else path]])
  {
    hide Listed;
    var target := if path in links then links[path] else path;
    var index' := index[Name(path) := (if Name(path) in index then index[Name(path)] else []) + [target]];
    forall n ensures IndexedAs(index', n, Listed(links, listing + [path], n)) {
      ListedSnoc(links, listing, path, n);
      assert IndexedAs(index, n, Listed(links, listing, n));
    }
  }

  method BuildIndex(links: map<Path, Path>, listing: seq<Path>) returns (index: map<string, seq<Path>>)
    ensures Indexes(links, listing, index)
  {
    index := map[];
    assert listing[..0] == [];
    for i := 0 to |listing|
      invariant Indexes(links, listing[..i], index)
    {
      var path := listing[i];
      IndexStep(links, listing[..i], index, path);
      assert listing[..i + 1] == listing[..i] + [path];
      var before := if Name(path) in index then index[Name(path)] else [];
      index := index[Name(path) := before + [if path in links then links[path] else path]];
    }
    assert listing[..|listing|] == listing;
  }

  // Which candidate is the first.

  /** n is the last component of p; the path without components is named by the empty string. */
  ghost predicate NamedAs(p: Path, n: string) {
    (exists front :: p == front + [n]) || (p == [] && n == "")
  }

  /** The i-th of the directories is the first one with a file of that name. */
  ghost predicate FirstLocal(w: World, dirs: seq<Path>, soname: string, i: int) {
    0 <= i < |dirs| && dirs[i] + [soname] in w.files && NoLocal(w, dirs[..i], soname)
  }

  ghost predicate NoLocal(w: World, dirs: seq<Path>, soname: string) {
    forall j :: 0 <= j < |dirs| ==> dirs[j] + [soname] !in w.files
  }

  /** The i-th of the listed paths is the first one of that name. */
  ghost predicate FirstListed(listing: seq<Path>, soname: string, i: int) {
    0 <= i < |listing| && NamedAs(listing[i], soname) && NoneListed(listing[..i], soname)
  }

  ghost predicate NoneListed(listing: seq<Path>, soname: string) {
    forall j :: 0 <= j < |listing| ==> !NamedAs(listing[j], soname)
  }

  /** Where a path leads, through the link that it is, if it is one. */
  ghost function Target(w: World, p: Path): Path {
    if p in w.links then w.links[p] else p
  }

  /**
   A dependency resolves in the first of the owner's run paths that has a file of that name; if none has, to the first
   path of that name in the listing of the search roots; if there is none either, not at all.
   */
  ghost predicate FirstChoice(w: World, listing: seq<Path>, owner: Path, soname: string, choice: Option<Path>)
    requires owner in w.elf
  {
    var dirs := w.elf[owner].runpaths;
    && (forall i :: FirstLocal(w, dirs, soname, i) ==> choice == Some(Target(w, dirs[i] + [soname])))
    && (NoLocal(w, dirs, soname) ==>
          && (forall i :: FirstListed(listing, soname, i) ==> choice == Some(Target(w, listing[i])))
          && (NoneListed(listing, soname) ==> choice == None))
  }

  lemma DependencyIsFirstChoice(w: World, listing: seq<Path>, owner: Path, soname: string)
    requires w.Valid() && owner in w.elf && Indexes(w.links, listing, w.index)
    ensures FirstChoice(w, listing, owner, soname, w.Dependency(owner, soname))
  {
    hide World.Local;
    hide Listed;
    hide NoLocal;
    hide NoneListed;
    var dirs, local := w.elf[owner].runpaths, w.Local(w.elf[owner].runpaths, soname);
    NoLocalMeans(w, dirs, soname);
    NoneListedMeans(w.links, listing, soname);
    assert IndexedAs(w.index, soname, Listed(w.links, listing, soname));
    forall i | FirstLocal(w, dirs, soname, i) ensures w.Dependency(owner, soname) == Some(w.Resolve(dirs[i] + [soname])) {
      LocalFirst(w, dirs, soname, i);
      assert w.Candidates(owner, soname)[0] == local[0];
    }
    forall i | FirstListed(listing, soname, i) && local == []
      ensures w.Dependency(owner, soname) == Some(w.Resolve(listing[i]))
    {
      ListedFirst(w.links, listing, soname, i);
    }
  }

  lemma {:induction false} NoLocalMeans(w: World, dirs: seq<Path>, soname: string)
    ensures w.Local(dirs, soname) == [] <==> NoLocal(w, dirs, soname)
  {
    if dirs != [] {
      NoLocalMeans(w, dirs[1..], soname);
      assert forall j :: 0 < j < |dirs| ==> dirs[j] == dirs[1..][j - 1];
    }
  }

  lemma {:induction false} LocalFirst(w: World, dirs: seq<Path>, soname: string, i: int)
    requires FirstLocal(w, dirs, soname, i)
    ensures w.Local(dirs, soname) != [] && w.Local(dirs, soname)[0] == dirs[i] + [soname]
    decreases dirs
  {
    if 0 < i {
      assert dirs[..i][0] == dirs[0];
      assert dirs[1..][..i - 1] == dirs[..i][1..];
      LocalFirst(w, dirs[1..], soname, i - 1);
    }
  }

  lemma NameMeans(p: Path, n: string)
    ensures Name(p) == n <==> NamedAs(p, n)
  {
    if p != [] {
      assert p == p[..|p| - 1] + [Name(p)];
    }
  }

  lemma {:induction false} NoneListedMeans(links: map<Path, Path>, listing: seq<Path>, name: string)
    ensures Listed(links, listing, name) == [] <==> NoneListed(listing, name)
  {
    hide Name;
    hide NamedAs;
    if listing != [] {
      var n := |listing| - 1;
      NoneListedMeans(links, listing[..n], name);
      NameMeans(listing[n], name);
      assert forall j :: 0 <= j < n ==> listing[..n][j] == listing[j];
    }
  }

  lemma {:induction false} ListedFirst(links: map<Path, Path>, listing: seq<Path>, name: string, i: int)
    requires FirstListed(listing, name, i)
    ensures Listed(links, listing, name) != []
    ensures Listed(links, listing, name)[0] == if listing[i] in links then links[listing[i]] else listing[i]
    decreases listing
  {
    hide Name;
    hide NamedAs;
    hide NoneListed;
    var n := |listing| - 1;
    if i < n {
      assert listing[..n][..i] == listing[..i];
      ListedFirst(links, listing[..n], name, i);
    } else {
      NoneListedMeans(links, listing[..n], name);
      NameMeans(listing[n], name);
    }
  }

  // What the report records of one object.
  datatype Metadata = Metadata(needed: seq<string>, resolved: map<string, Path>, runpath: seq<string>,
                               interpreter: Option<string>)

  // The worklist and its tables. `order` lists the keys of `seen` as they were inserted.
  datatype Tables = Tables(queue: seq<Path>, seen: map<Path, Metadata>, order: seq<Path>,
                           missing: map<string, seq<Path>>, copyNames: map<Path, set<string>>)
  {
    ghost predicate Pending(p: Path) {
      p in seen || p in queue
    }
  }

  function AddName(copyNames: map<Path, set<string>>, p: Path, name: string): map<Path, set<string>> {
    copyNames[p := (if p in copyNames then copyNames[p] else {}) + {name}]
  }

  function AddMissing(missing: map<string, seq<Path>>, name: string, owner: Path): map<string, seq<Path>> {
    missing[name := (if name in missing then missing[name] else []) + [owner]]
  }

  /** The tables before the first object: every entry queued under its requested basename. */
  function Start(w: World, arguments: seq<Path>): Tables {
    if arguments == [] then Tables([], map[], [], map[], map[])
    else
      var a := arguments[|arguments| - 1];
      var t := Start(w, arguments[..|arguments| - 1]);
      t.(queue := t.queue + [w.Resolve(a)], copyNames := AddName(t.copyNames, w.Resolve(a), Name(a)))
  }

  /** One needed name of an object. */
  function RecordName(w: World, t: Tables, owner: Path, soname: string): Tables {
    match w.Dependency(owner, soname)
    case None => t.(missing := AddMissing(t.missing, soname, owner))
    case Some(d) => t.(copyNames := AddName(t.copyNames, d, soname), queue := t.queue + [d])
  }

  function RecordNames(w: World, t: Tables, owner: Path, names: seq<string>): Tables {
    if names == [] then t
    else RecordName(w, RecordNames(w, t, owner, names[..|names| - 1]), owner, names[|names| - 1])
  }

  function ResolvedNames(w: World, owner: Path, names: seq<string>): map<string, Path> {
    if names == [] then map[]
    else
      var n := names[|names| - 1];
      var before := ResolvedNames(w, owner, names[..|names| - 1]);
      match w.Dependency(owner, n)
      case None => before
      case Some(d) => before[n := d]
  }

  /** The report of an object maps exactly the resolved names to their dependencies. */
  lemma {:induction false} ResolvedNamesExact(w: World, owner: Path, names: seq<string>)
    ensures var resolved := ResolvedNames(w, owner, names);
            && (forall n :: n in resolved <==> n in names && w.Dependency(owner, n).Some?)
            && forall n :: n in resolved ==> w.Dependency(owner, n) == Some(resolved[n])
  {
    hide World.Dependency;
    if names != [] {
      ResolvedNamesExact(w, owner, names[..|names| - 1]);
      assert names == names[..|names| - 1] + [names[|names| - 1]];
    }
  }

  function Report(w: World, owner: Path): Metadata {
    var elf := if owner in w.elf then w.elf[owner] else Elf([], [], [], None);
    Metadata(elf.needed, ResolvedNames(w, owner, elf.needed), elf.runpath, elf.interpreter)
  }

  /** One object taken off the queue, not seen before. */
  function Visit(w: World, t: Tables, owner: Path): Tables {
    var t' := RecordNames(w, t, owner, w.Needed(owner));
    t'.(seen := t'.seen[owner := Report(w, owner)],
        order := t'.order + [owner])
  }

  // The (owner, name) pairs handled so far: for each owner, the prefix of its needed names.
  type Progress = map<Path, seq<string>>

  ghost function AllNeeded(w: World, t: Tables): Progress {
    map o | o in t.seen :: w.Needed(o)
  }

  function Occurrences(missing: map<string, seq<Path>>, name: string, owner: Path): nat {
    if name in missing then multiset(missing[name])[owner] else 0
  }

  /** How often the owner needs a name that has no candidate. */
  function Unresolved(w: World, done: Progress, name: string, owner: Path): nat {
    if owner in done && w.Dependency(owner, name).None? then multiset(done[owner])[name] else 0
  }

  /** Every handled occurrence of a name without candidate is in missing, as often as it occurs. */
  ghost predicate MissingExact(w: World, missing: map<string, seq<Path>>, done: Progress) {
    && (forall n :: n in missing ==> missing[n] != [])
    && forall n, o :: Occurrences(missing, n, o) == Unresolved(w, done, n, o)
  }

  ghost predicate NamedBy(w: World, arguments: seq<Path>, done: Progress, p: Path, name: string) {
    || (exists a :: a in arguments && w.Resolve(a) == p && Name(a) == name)
    || (exists o :: o in done && name in done[o] && w.Dependency(o, name) == Some(p))
  }

  ghost predicate HasName(copyNames: map<Path, set<string>>, p: Path, name: string) {
    p in copyNames && name in copyNames[p]
  }

  /** A copy name is the basename of an entry or a needed name that resolved to the object. */
  ghost predicate NamesExact(w: World, arguments: seq<Path>, copyNames: map<Path, set<string>>, done: Progress) {
    && (forall p :: p in copyNames ==> copyNames[p] != {})
    && forall p, n :: HasName(copyNames, p, n) <==> NamedBy(w, arguments, done, p, n)
  }

  /** Everything queued or seen is a resolved object that the entries reach. */
  ghost predicate Known(w: World, arguments: seq<Path>, t: Tables) {
    forall p :: t.Pending(p) ==> w.Reachable(arguments, p) && w.Resolve(p) == p && p in w.Universe(arguments)
  }

  /** What the entries and the handled names lead to is queued, seen, or the current object. */
  ghost predicate Covered(w: World, arguments: seq<Path>, t: Tables, done: Progress, current: set<Path>) {
    && (forall p :: w.Entry(arguments, p) ==> t.Pending(p) || p in current)
    && (forall o, n :: o in done && n in done[o] && w.Dependency(o, n).Some?
                       ==> t.Pending(w.Dependency(o, n).value) || w.Dependency(o, n).value in current)
    && (forall p :: p in t.copyNames <==> t.Pending(p) || p in current)
  }

  ghost predicate Recorded(w: World, t: Tables) {
    && (forall p :: p in t.seen <==> p in t.order)
    && (forall i, j :: 0 <= i < j < |t.order| ==> t.order[i] != t.order[j])
    && (forall p :: p in t.seen ==>
          p in w.elf && t.seen[p] == Report(w, p))
  }

  ghost predicate Inv(w: World, arguments: seq<Path>, t: Tables) {
    && MissingExact(w, t.missing, AllNeeded(w, t))
    && NamesExact(w, arguments, t.copyNames, AllNeeded(w, t))
    && Known(w, arguments, t)
    && Covered(w, arguments, t, AllNeeded(w, t), {})
    && Recorded(w, t)
  }

  // How one name changes each part of the invariant.

  function Handled(done: Progress, owner: Path, soname: string): Progress
    requires owner in done
  {
    done[owner := done[owner] + [soname]]
  }

  lemma MissingStep(w: World, t: Tables, done: Progress, owner: Path, soname: string)
    requires owner in done && MissingExact(w, t.missing, done)
    ensures MissingExact(w, RecordName(w, t, owner, soname).missing, Handled(done, owner, soname))
  {
    var missing' := RecordName(w, t, owner, soname).missing;
    assert forall n :: n in missing' ==> missing'[n] != [];
    forall n, o
      ensures Occurrences(missing', n, o) == Unresolved(w, Handled(done, owner, soname), n, o)
    {
      assert Occurrences(t.missing, n, o) == Unresolved(w, done, n, o);
      UnresolvedStep(w, done, owner, soname, n, o);
      if w.Dependency(owner, soname).None? {
        OccurrencesStep(t.missing, soname, owner, n, o);
      }
    }
  }

  lemma UnresolvedStep(w: World, done: Progress, owner: Path, soname: string, n: string, o: Path)
    requires owner in done
    ensures Unresolved(w, Handled(done, owner, soname), n, o)
            == Unresolved(w, done, n, o)
               + if w.Dependency(owner, soname).None? && n == soname && o == owner then 1 else 0
  {
    CountSnoc(done[owner], soname, n);
  }

  lemma OccurrencesStep(missing: map<string, seq<Path>>, name: string, owner: Path, n: string, o: Path)
    ensures Occurrences(AddMissing(missing, name, owner), n, o)
            == Occurrences(missing, n, o) + if n == name && o == owner then 1 else 0
  {
    CountSnoc(if name in missing then missing[name] else [], owner, o);
  }

  lemma CountSnoc<T>(s: seq<T>, last: T, x: T)
    ensures multiset(s + [last])[x] == multiset(s)[x] + if x == last then 1 else 0
    ensures multiset([last])[x] == if x == last then 1 else 0
  {
  }

  lemma NamesStep(w: World, arguments: seq<Path>, t: Tables, done: Progress, owner: Path, soname: string)
    requires owner in done && NamesExact(w, arguments, t.copyNames, done)
    ensures NamesExact(w, arguments, RecordName(w, t, owner, soname).copyNames, Handled(done, owner, soname))
  {
    var done' := Handled(done, owner, soname);
    var copyNames' := RecordName(w, t, owner, soname).copyNames;
    forall p, n
      ensures HasName(copyNames', p, n) <==> NamedBy(w, arguments, done', p, n)
    {
      assert HasName(t.copyNames, p, n) <==> NamedBy(w, arguments, done, p, n);
      NamedByStep(w, arguments, done, owner, soname, p, n);
    }
  }

  lemma NamedByStep(w: World, arguments: seq<Path>, done: Progress, owner: Path, soname: string, p: Path, n: string)
    requires owner in done
    ensures NamedBy(w, arguments, Handled(done, owner, soname), p, n)
            <==> NamedBy(w, arguments, done, p, n) || (n == soname && w.Dependency(owner, soname) == Some(p))
  {
    var done' := Handled(done, owner, soname);
    if o :| o in done && n in done[o] && w.Dependency(o, n) == Some(p) {
      assert o in done' && n in done'[o];
    }
    if n == soname && w.Dependency(owner, soname) == Some(p) {
      assert owner in done' && n in done'[owner];
    }
  }

  lemma KnownStep(w: World, arguments: seq<Path>, t: Tables, owner: Path, soname: string)
    requires w.Valid() && Known(w, arguments, t) && w.Reachable(arguments, owner) && soname in w.Needed(owner)
    ensures Known(w, arguments, RecordName(w, t, owner, soname))
  {
    if w.Dependency(owner, soname).Some? {
      var d := w.Dependency(owner, soname).value;
      assert w.Edge(owner, d);
      EdgeReachable(w, arguments, owner, d);
      DependencyInUniverse(w, arguments, owner, soname);
      assert forall p :: RecordName(w, t, owner, soname).Pending(p) ==> t.Pending(p) || p == d;
    } else {
      assert forall p :: RecordName(w, t, owner, soname).Pending(p) ==> t.Pending(p);
    }
  }

  lemma CoveredStep(w: World, arguments: seq<Path>, t: Tables, done: Progress, current: set<Path>,
                    owner: Path, soname: string)
    requires owner in done && Covered(w, arguments, t, done, current)
    ensures Covered(w, arguments, RecordName(w, t, owner, soname), Handled(done, owner, soname), current)
  {
    var t' := RecordName(w, t, owner, soname);
    assert forall p :: t.Pending(p) ==> t'.Pending(p);
    if w.Dependency(owner, soname).Some? {
      assert t'.queue[|t'.queue| - 1] == w.Dependency(owner, soname).value;
      assert forall p :: t'.Pending(p) <==> t.Pending(p) || p == w.Dependency(owner, soname).value;
    }
  }

  /** All names of the current object, by induction over the names handled. */
  lemma {:induction false} NamesInv(w: World, arguments: seq<Path>, t: Tables, done: Progress, owner: Path,
                                    names: seq<string>)
    requires w.Valid() && w.Reachable(arguments, owner) && names <= w.Needed(owner)
    requires owner !in done
    requires MissingExact(w, t.missing, done[owner := []]) && NamesExact(w, arguments, t.copyNames, done[owner := []])
    requires Known(w, arguments, t) && Covered(w, arguments, t, done[owner := []], {owner})
    ensures var t' := RecordNames(w, t, owner, names);
            var done' := done[owner := names];
            && MissingExact(w, t'.missing, done') && NamesExact(w, arguments, t'.copyNames, done')
            && Known(w, arguments, t') && Covered(w, arguments, t', done', {owner})
            && t'.seen == t.seen && t'.order == t.order
  {
    hide MissingExact;
    hide NamesExact;
    hide Known;
    hide Covered;
    hide World.Reachable;
    hide World.Universe;
    hide World.Valid;
    hide World.Dependency;
    hide World.Needed;
    if names == [] {
      assert RecordNames(w, t, owner, names) == t;
    } else {
      var k := |names| - 1;
      NamesInv(w, arguments, t, done, owner, names[..k]);
      var t' := RecordNames(w, t, owner, names[..k]);
      var done' := done[owner := names[..k]];
      assert names == names[..k] + [names[k]];
      assert Handled(done', owner, names[k]) == done[owner := names];
      assert RecordNames(w, t, owner, names) == RecordName(w, t', owner, names[k]);
      MissingStep(w, t', done', owner, names[k]);
      NamesStep(w, arguments, t', done', owner, names[k]);
      KnownStep(w, arguments, t', owner, names[k]);
      CoveredStep(w, arguments, t', done', {owner}, owner, names[k]);
    }
  }

  // What changes before the first name and after the last one.

  lemma NothingHandled(w: World, arguments: seq<Path>, t: Tables, done: Progress, owner: Path)
    requires owner !in done
    requires MissingExact(w, t.missing, done) && NamesExact(w, arguments, t.copyNames, done)
    ensures MissingExact(w, t.missing, done[owner := []]) && NamesExact(w, arguments, t.copyNames, done[owner := []])
  {
    var done' := done[owner := []];
    forall n, o ensures Occurrences(t.missing, n, o) == Unresolved(w, done', n, o) {
      assert Occurrences(t.missing, n, o) == Unresolved(w, done, n, o);
    }
    forall p, n ensures NamedBy(w, arguments, done', p, n) <==> NamedBy(w, arguments, done, p, n) {
      if o :| o in done && n in done[o] && w.Dependency(o, n) == Some(p) {
        assert o in done' && n in done'[o];
      }
    }
  }

  lemma PoppedCovered(w: World, arguments: seq<Path>, t: Tables, done: Progress)
    requires t.queue != [] && Covered(w, arguments, t, done, {}) && t.queue[0] !in done
    ensures Covered(w, arguments, t.(queue := t.queue[1..]), done[t.queue[0] := []], {t.queue[0]})
  {
    var t' := t.(queue := t.queue[1..]);
    assert t.queue == [t.queue[0]] + t'.queue;
    assert forall p :: t.Pending(p) || p in {t.queue[0]} <==> t'.Pending(p) || p in {t.queue[0]};
  }

  lemma VisitedCovered(w: World, arguments: seq<Path>, t: Tables, done: Progress, owner: Path, m: Metadata)
    requires Covered(w, arguments, t, done, {owner})
    ensures Covered(w, arguments, t.(seen := t.seen[owner := m], order := t.order + [owner]), done, {})
  {
    var t' := t.(seen := t.seen[owner := m], order := t.order + [owner]);
    assert forall p :: t'.Pending(p) <==> t.Pending(p) || p == owner;
  }

  lemma PoppedKnown(w: World, arguments: seq<Path>, t: Tables)
    requires t.queue != [] && Known(w, arguments, t)
    ensures Known(w, arguments, t.(queue := t.queue[1..]))
  {
    hide World.Reachable;
    hide World.Universe;
    assert t.queue == [t.queue[0]] + t.queue[1..];
    assert forall p :: t.(queue := t.queue[1..]).Pending(p) ==> t.Pending(p);
  }

  lemma VisitedKnown(w: World, arguments: seq<Path>, t: Tables, owner: Path, m: Metadata)
    requires Known(w, arguments, t)
    requires w.Reachable(arguments, owner) && w.Resolve(owner) == owner && owner in w.Universe(arguments)
    ensures Known(w, arguments, t.(seen := t.seen[owner := m], order := t.order + [owner]))
  {
    hide World.Reachable;
    hide World.Universe;
    var t' := t.(seen := t.seen[owner := m], order := t.order + [owner]);
    assert forall p :: t'.Pending(p) ==> t.Pending(p) || p == owner;
  }

  lemma VisitedRecorded(w: World, t: Tables, owner: Path)
    requires Recorded(w, t) && owner !in t.seen && owner in w.elf
    ensures Recorded(w, t.(seen := t.seen[owner := Report(w, owner)],
                           order := t.order + [owner]))
  {
    hide World.Needed;
    hide ResolvedNames;
  }

  lemma NeededOfVisited(w: World, t: Tables, t': Tables)
    requires t.queue != [] && t'.seen.Keys == t.seen.Keys + {t.queue[0]}
    ensures AllNeeded(w, t') == AllNeeded(w, t)[t.queue[0] := w.Needed(t.queue[0])]
  {
  }

  /** The parts of the invariant once every name of the head of the queue is handled. */
  lemma HeadNamesInv(w: World, arguments: seq<Path>, t: Tables, owner: Path, popped: Tables)
    requires w.Valid() && Inv(w, arguments, t) && t.queue != [] && owner == t.queue[0] && owner !in t.seen
    requires popped == t.(queue := t.queue[1..])
    ensures var t' := RecordNames(w, popped, owner, w.Needed(owner));
            var done := AllNeeded(w, t)[owner := w.Needed(owner)];
            && MissingExact(w, t'.missing, done) && NamesExact(w, arguments, t'.copyNames, done)
            && Known(w, arguments, t') && Covered(w, arguments, t', done, {owner}) && Recorded(w, t')
            && t'.seen == t.seen && t'.order == t.order
  {
    assert owner !in AllNeeded(w, t);
    HeadKnown(w, arguments, t);
    hide MissingExact;
    hide NamesExact;
    hide Covered;
    hide Known;
    hide Recorded;
    hide World.Reachable;
    hide World.Universe;
    hide RecordNames;
    hide World.Valid;
    hide AllNeeded;
    NothingHandled(w, arguments, t, AllNeeded(w, t), owner);
    PoppedCovered(w, arguments, t, AllNeeded(w, t));
    PoppedKnown(w, arguments, t);
    NamesInv(w, arguments, popped, AllNeeded(w, t), owner, w.Needed(owner));
    RecordedDependsOnSeen(w, t, RecordNames(w, popped, owner, w.Needed(owner)));
  }

  /** Visiting the object at the head of the queue keeps the invariant. */
  lemma VisitInv(w: World, arguments: seq<Path>, t: Tables)
    requires w.Valid() && Inv(w, arguments, t) && t.queue != []
    requires t.queue[0] !in t.seen && t.queue[0] in w.elf
    ensures Inv(w, arguments, Visit(w, t.(queue := t.queue[1..]), t.queue[0]))
    ensures Visit(w, t.(queue := t.queue[1..]), t.queue[0]).seen.Keys == t.seen.Keys + {t.queue[0]}
  {
    HeadKnown(w, arguments, t);
    hide MissingExact;
    hide NamesExact;
    hide Covered;
    hide Known;
    hide Recorded;
    hide World.Reachable;
    hide World.Universe;
    hide RecordNames;
    hide World.Valid;
    hide AllNeeded;
    var owner := t.queue[0];
    var popped := t.(queue := t.queue[1..]);
    HeadNamesInv(w, arguments, t, owner, popped);
    AfterNamesInv(w, arguments, t, owner, popped, RecordNames(w, popped, owner, w.Needed(owner)));
  }

  lemma AfterNamesInv(w: World, arguments: seq<Path>, t: Tables, owner: Path, popped: Tables, t': Tables)
    requires t.queue != [] && owner == t.queue[0] && owner !in t.seen && owner in w.elf
    requires w.Reachable(arguments, owner) && w.Resolve(owner) == owner && owner in w.Universe(arguments)
    requires t' == RecordNames(w, popped, owner, w.Needed(owner)) && t'.seen == t.seen && t'.order == t.order
    requires var done := AllNeeded(w, t)[owner := w.Needed(owner)];
             && MissingExact(w, t'.missing, done) && NamesExact(w, arguments, t'.copyNames, done)
             && Known(w, arguments, t') && Covered(w, arguments, t', done, {owner}) && Recorded(w, t')
    ensures Inv(w, arguments, Visit(w, popped, owner))
    ensures Visit(w, popped, owner).seen.Keys == t.seen.Keys + {owner}
  {
    hide MissingExact;
    hide NamesExact;
    hide Covered;
    hide Known;
    hide Recorded;
    hide World.Reachable;
    hide World.Universe;
    hide RecordNames;
    hide World.Valid;
    hide AllNeeded;
    hide ResolvedNames;
    var m := Report(w, owner);
    var visited := Visit(w, popped, owner);
    assert visited == t'.(seen := t'.seen[owner := m], order := t'.order + [owner]);
    VisitedCovered(w, arguments, t', AllNeeded(w, t)[owner := w.Needed(owner)], owner, m);
    VisitedKnown(w, arguments, t', owner, m);
    VisitedRecorded(w, t', owner);
    NeededOfVisited(w, t, visited);
  }

  lemma RecordedDependsOnSeen(w: World, t: Tables, t': Tables)
    requires Recorded(w, t) && t'.seen == t.seen && t'.order == t.order
    ensures Recorded(w, t')
  {
  }

  lemma PoppedSeenCovered(w: World, arguments: seq<Path>, t: Tables, done: Progress)
    requires t.queue != [] && Covered(w, arguments, t, done, {}) && t.queue[0] in t.seen
    ensures Covered(w, arguments, t.(queue := t.queue[1..]), done, {})
  {
    var t' := t.(queue := t.queue[1..]);
    assert t.queue == [t.queue[0]] + t'.queue;
    assert forall p :: t.Pending(p) <==> t'.Pending(p);
  }

  lemma SkipInv(w: World, arguments: seq<Path>, t: Tables)
    requires Inv(w, arguments, t) && t.queue != [] && t.queue[0] in t.seen
    ensures Inv(w, arguments, t.(queue := t.queue[1..]))
  {
    hide MissingExact;
    hide NamesExact;
    hide Covered;
    hide Known;
    hide Recorded;
    var t' := t.(queue := t.queue[1..]);
    assert AllNeeded(w, t') == AllNeeded(w, t);
    PoppedSeenCovered(w, arguments, t, AllNeeded(w, t));
    PoppedKnown(w, arguments, t);
    RecordedDependsOnSeen(w, t, t');
  }

  lemma {:induction false} StartInv(w: World, arguments: seq<Path>)
    requires w.Valid()
    ensures Inv(w, arguments, Start(w, arguments))
    ensures Start(w, arguments).seen == map[]
  {
    var t := Start(w, arguments);
    StartQueue(w, arguments);
    assert AllNeeded(w, t) == map[];
    forall p | t.Pending(p)
      ensures w.Reachable(arguments, p) && w.Resolve(p) == p && p in w.Universe(arguments)
    {
      assert w.Entry(arguments, p);
      EntryReachable(w, arguments, p);
    }
  }

  lemma {:induction false} StartQueue(w: World, arguments: seq<Path>)
    ensures var t := Start(w, arguments);
            && t.seen == map[] && t.order == [] && t.missing == map[]
            && (forall p :: p in t.queue <==> w.Entry(arguments, p))
            && (forall p :: p in t.copyNames <==> w.Entry(arguments, p))
            && NamesExact(w, arguments, t.copyNames, map[])
  {
    if arguments != [] {
      var k := |arguments| - 1;
      StartQueue(w, arguments[..k]);
      assert arguments == arguments[..k] + [arguments[k]];
      forall p ensures w.Entry(arguments, p) <==> w.Entry(arguments[..k], p) || w.Resolve(arguments[k]) == p {
        if w.Entry(arguments[..k], p) {
          var a :| a in arguments[..k] && w.Resolve(a) == p;
          assert a in arguments;
        }
        assert arguments[k] in arguments;
      }
      EntryNamed(w, arguments[..k], arguments[k], Start(w, arguments[..k]).copyNames);
    }
  }

  lemma EntryNamed(w: World, arguments: seq<Path>, a: Path, copyNames: map<Path, set<string>>)
    requires NamesExact(w, arguments, copyNames, map[])
    ensures NamesExact(w, arguments + [a], AddName(copyNames, w.Resolve(a), Name(a)), map[])
  {
    var copyNames' := AddName(copyNames, w.Resolve(a), Name(a));
    forall p, n ensures HasName(copyNames', p, n) <==> NamedBy(w, arguments + [a], map[], p, n) {
      assert HasName(copyNames, p, n) <==> NamedBy(w, arguments, map[], p, n);
      if b :| b in arguments && w.Resolve(b) == p && Name(b) == n {
        assert b in arguments + [a];
      }
      assert a in arguments + [a];
    }
  }

  // The order in which missing names are listed.

  function MissingList(missing: map<string, seq<Path>>, name: string): seq<Path> {
    if name in missing then missing[name] else []
  }

  /** The owner, once for each time that it needs the name among `names` and nothing satisfies it. */
  ghost function Repeats(w: World, owner: Path, names: seq<string>, name: string): seq<Path> {
    if names == [] then []
    else
      Repeats(w, owner, names[..|names| - 1], name)
      + if names[|names| - 1] == name && w.Dependency(owner, name).None? then [owner] else []
  }

  ghost function MissingOwners(w: World, order: seq<Path>, name: string): seq<Path> {
    if order == [] then []
    else
      var last := order[|order| - 1];
      MissingOwners(w, order[..|order| - 1], name) + Repeats(w, last, w.Needed(last), name)
  }

  /** Each missing name lists its owners in the order in which they were visited, and for each need once. */
  ghost predicate MissingInOrder(w: World, t: Tables) {
    forall n :: MissingList(t.missing, n) == MissingOwners(w, t.order, n)
  }

  lemma {:induction false} RecordNamesMissing(w: World, t: Tables, owner: Path, names: seq<string>, n: string)
    ensures MissingList(RecordNames(w, t, owner, names).missing, n) == MissingList(t.missing, n) + Repeats(w, owner, names, n)
  {
    hide World.Dependency;
    if names != [] {
      RecordNamesMissing(w, t, owner, names[..|names| - 1], n);
    }
  }

  lemma {:induction false} RecordNamesOrder(w: World, t: Tables, owner: Path, names: seq<string>)
    ensures RecordNames(w, t, owner, names).order == t.order
  {
    hide World.Dependency;
    if names != [] {
      RecordNamesOrder(w, t, owner, names[..|names| - 1]);
    }
  }

  lemma VisitMissing(w: World, t: Tables, owner: Path)
    requires MissingInOrder(w, t)
    ensures MissingInOrder(w, Visit(w, t, owner))
  {
    hide RecordNames;
    var t' := Visit(w, t, owner);
    RecordNamesOrder(w, t, owner, w.Needed(owner));
    assert t'.order[..|t'.order| - 1] == t.order;
    forall n ensures MissingList(t'.missing, n) == MissingOwners(w, t'.order, n) {
      RecordNamesMissing(w, t, owner, w.Needed(owner), n);
    }
  }

  lemma SkipMissing(w: World, t: Tables)
    requires MissingInOrder(w, t) && t.queue != []
    ensures MissingInOrder(w, t.(queue := t.queue[1..]))
  {
  }

  lemma {:induction false} StartMissing(w: World, arguments: seq<Path>)
    ensures MissingInOrder(w, Start(w, arguments)) && Start(w, arguments).missing == map[] && Start(w, arguments).order == []
  {
    if arguments != [] {
      StartMissing(w, arguments[..|arguments| - 1]);
    }
  }

  /** The tables describe exactly the part of the graph that the entries reach. */
  ghost predicate Complete(w: World, arguments: seq<Path>, t: Tables) {
    && (forall p :: p in t.seen <==> w.Reachable(arguments, p))
    && t.copyNames.Keys == t.seen.Keys
    && Recorded(w, t)
    && MissingExact(w, t.missing, AllNeeded(w, t))
    && NamesExact(w, arguments, t.copyNames, AllNeeded(w, t))
  }

  lemma EmptyQueueIsComplete(w: World, arguments: seq<Path>, t: Tables)
    requires Inv(w, arguments, t) && t.queue == []
    ensures Complete(w, arguments, t)
  {
    hide MissingExact;
    hide NamesExact;
    hide Recorded;
    hide World.Reachable;
    hide World.Universe;
    SeenIsClosed(w, arguments, t);
    ClosedCoversReachable(w, arguments, t.seen.Keys);
    assert forall p :: t.Pending(p) <==> p in t.seen;
    assert t.copyNames.Keys == t.seen.Keys;
  }

  /** What is recorded of an object: what readelf reports, and for exactly the resolvable names their dependencies. */
  lemma ReportMeans(w: World, arguments: seq<Path>, t: Tables, p: Path, n: string)
    requires Complete(w, arguments, t) && p in t.seen
    ensures p in w.elf
    ensures var m, e := t.seen[p], w.elf[p];
            && m.needed == e.needed && m.runpath == e.runpath && m.interpreter == e.interpreter
            && (n in m.resolved <==> n in e.needed && w.Dependency(p, n).Some?)
            && (n in m.resolved ==> w.Dependency(p, n) == Some(m.resolved[n]))
  {
    hide World.Reachable;
    hide World.Dependency;
    hide MissingExact;
    hide NamesExact;
    ResolvedNamesExact(w, p, w.elf[p].needed);
  }

  lemma SeenIsClosed(w: World, arguments: seq<Path>, t: Tables)
    requires Covered(w, arguments, t, AllNeeded(w, t), {}) && t.queue == []
    ensures forall p :: w.Entry(arguments, p) ==> p in t.seen.Keys
    ensures forall o, target :: o in t.seen.Keys && w.Edge(o, target) ==> target in t.seen.Keys
  {
    forall o, target | o in t.seen.Keys && w.Edge(o, target) ensures target in t.seen.Keys {
      var n :| n in w.Needed(o) && w.Dependency(o, n) == Some(target);
      assert n in AllNeeded(w, t)[o];
      assert t.Pending(target);
    }
    forall p | w.Entry(arguments, p) ensures p in t.seen.Keys {
      assert t.Pending(p);
    }
  }

  /** The resolver: a queue and four dictionaries, updated in place. */
  class Closure {
    const w: World
    var queue: seq<Path>
    var seen: map<Path, Metadata>
    var order: seq<Path>
    var missing: map<string, seq<Path>>
    var copyNames: map<Path, set<string>>

    function State(): Tables
      reads this
    {
      Tables(queue, seen, order, missing, copyNames)
    }

    constructor (w: World, arguments: seq<Path>)
      ensures this.w == w && State() == Start(w, arguments)
    {
      this.w := w;
      queue, seen, order, missing, copyNames := [], map[], [], map[], map[];
      new;
      for i := 0 to |arguments|
        invariant this.w == w && State() == Start(w, arguments[..i])
      {
        var path := w.Resolve(arguments[i]);
        queue := queue + [path];
        copyNames := AddName(copyNames, path, Name(arguments[i]));
        assert arguments[..i + 1][..i] == arguments[..i];
      }
      assert arguments[..|arguments|] == arguments;
    }

    /** One needed name: either it is missing, or its first candidate is queued and named. */
    method Record(owner: Path, soname: string, resolved: map<string, Path>) returns (resolved': map<string, Path>)
      requires owner in w.elf
      modifies this`queue, this`missing, this`copyNames
      ensures State() == RecordName(w, old(State()), owner, soname)
      ensures resolved' == match w.Dependency(owner, soname)
                           case None => resolved
                           case Some(d) => resolved[soname := d]
    {
      var candidates := w.Candidates(owner, soname);
      if candidates == [] {
        missing := AddMissing(missing, soname, owner);
        return resolved;
      }
      var dependency := w.Resolve(candidates[0]);
      resolved' := resolved[soname := dependency];
      copyNames := AddName(copyNames, dependency, soname);
      queue := queue + [dependency];
    }

    /** The body of the worklist loop for an object that was not seen before. */
    method Process(owner: Path)
      requires owner in w.elf
      modifies this
      ensures State() == Visit(w, old(State()), owner)
    {
      var needed := w.elf[owner].needed;
      var resolved := map[];
      for i := 0 to |needed|
        invariant State() == RecordNames(w, old(State()), owner, needed[..i])
        invariant resolved == ResolvedNames(w, owner, needed[..i])
      {
        assert needed[..i + 1][..i] == needed[..i];
        resolved := Record(owner, needed[i], resolved);
      }
      assert needed[..|needed|] == needed;
      seen := seen[owner := Metadata(needed, resolved, w.elf[owner].runpath, w.elf[owner].interpreter)];
      order := order + [owner];
    }

    /** The worklist loop. It stops early only at an object that readelf cannot read. */
    method Run(ghost arguments: seq<Path>) returns (unreadable: Option<Path>)
      requires w.Valid() && State() == Start(w, arguments)
      modifies this
      ensures unreadable.Some? <==> exists p :: w.Reachable(arguments, p) && p !in w.elf
      ensures unreadable.Some? ==> w.Reachable(arguments, unreadable.value) && unreadable.value !in w.elf
      ensures unreadable.None? ==> Complete(w, arguments, State()) && MissingInOrder(w, State())
    {
      hide Inv;
      hide Complete;
      hide World.Reachable;
      hide World.Universe;
      hide World.Valid;
      hide Visit;
      hide Start;
      hide MissingInOrder;
      StartInv(w, arguments);
      StartMissing(w, arguments);
      ghost var universe := w.Universe(arguments);
      while queue != []
        invariant Inv(w, arguments, State()) && MissingInOrder(w, State())
        decreases |universe - seen.Keys|, |queue|
      {
        HeadKnown(w, arguments, State());
        var owner := w.Resolve(queue[0]);
        if owner in seen {
          SkipInv(w, arguments, State());
          SkipMissing(w, State());
          queue := queue[1..];
          continue;
        }
        if owner !in w.elf {
          return Some(owner);
        }
        VisitInv(w, arguments, State());
        VisitShrinks(universe, seen.Keys, owner);
        SkipMissing(w, State());
        VisitMissing(w, State().(queue := queue[1..]), owner);
        queue := queue[1..];
        Process(owner);
      }
      unreadable := None;
      EmptyQueueIsComplete(w, arguments, State());
      CompleteReadable(w, arguments, State());
    }
  }

  lemma HeadKnown(w: World, arguments: seq<Path>, t: Tables)
    requires Inv(w, arguments, t) && t.queue != []
    ensures var owner := t.queue[0];
            w.Resolve(owner) == owner && w.Reachable(arguments, owner) && owner in w.Universe(arguments)
  {
    assert t.Pending(t.queue[0]);
  }

  lemma CompleteReadable(w: World, arguments: seq<Path>, t: Tables)
    requires Complete(w, arguments, t)
    ensures forall p :: w.Reachable(arguments, p) ==> p in w.elf
  {
    hide World.Reachable;
    hide MissingExact;
    hide NamesExact;
  }

  lemma VisitShrinks(universe: set<Path>, seen: set<Path>, owner: Path)
    requires owner in universe && owner !in seen
    ensures |universe - (seen + {owner})| < |universe - seen|
  {
    assert universe - seen == (universe - (seen + {owner})) + {owner};
  }
}
