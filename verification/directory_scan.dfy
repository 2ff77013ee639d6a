/** Enumerating a directory (backend/src/backend/filesystem/directory_contents.cpp): a breadth-first worklist of
    pointers into the tree being built, which drops its finished front whenever it has grown long.
 */
module DirectoryScans {
  import opened Wrappers

  // ---- The file system ------------------------------------------------------------------------------------------

  type Path = seq<string>

  /** `Special` is neither a regular file nor a directory. */
  datatype Entry =
    | File(name: string)
    | Dir(name: string, entries: seq<Entry>)
    | Special(name: string)

  /** Names within a directory differ, all the way down. */
  ghost predicate Proper(entries: seq<Entry>) {
    && (forall i, j :: 0 <= i < j < |entries| ==> entries[i].name != entries[j].name)
    && (forall e :: e in entries && e.Dir? ==> Proper(e.entries))
  }

  function Subdirectory(entries: seq<Entry>, name: string): Option<seq<Entry>> {
    if entries == [] then None
    else if entries[0].Dir? && entries[0].name == name then Some(entries[0].entries)
    else Subdirectory(entries[1..], name)
  }

  /** The entries of the directory at a path, if there is one. */
  function Listing(fs: seq<Entry>, path: Path): Option<seq<Entry>> {
    if path == [] then Some(fs)
    else
      match Listing(fs, path[..|path| - 1])
      case None => None
      case Some(entries) => Subdirectory(entries, path[|path| - 1])
  }

  function Files(entries: seq<Entry>): seq<string> {
    if entries == [] then []
    else Files(entries[..|entries| - 1]) + if entries[|entries| - 1].File? then [entries[|entries| - 1].name] else []
  }

  /** The number of directories in a listing, at any depth. */
  function Count(entries: seq<Entry>): nat
    decreases entries, 0
  {
    if entries == [] then 0 else Count(entries[..|entries| - 1]) + CountIn(entries[|entries| - 1])
  }

  function CountIn(e: Entry): nat
    decreases e, 1
  {
    match e
    case Dir(_, entries) => 1 + Count(entries)
    case _ => 0
  }

  /** A directory, by its path and its entries. */
  datatype Place = Place(path: Path, entries: seq<Entry>)

  /** The directories directly inside a place, in the order they are listed. */
  function Inside(path: Path, entries: seq<Entry>): seq<Place> {
    if entries == [] then []
    else
      var last := entries[|entries| - 1];
      Inside(path, entries[..|entries| - 1]) + if last.Dir? then [Place(path + [last.name], last.entries)] else []
  }

  // ---- Plain recursion ------------------------------------------------------------------------------------------

  datatype Content = Content(root: Path, files: seq<string>, directories: seq<Content>)

  function CommonPrefix(a: Path, b: Path): (n: nat)
    ensures n <= |a| && n <= |b|
  {
    if a != [] && b != [] && a[0] == b[0] then 1 + CommonPrefix(a[1..], b[1..]) else 0
  }

  /** fs::relative on canonical paths. */
  function Relative(path: Path, base: Path): Path {
    var n := CommonPrefix(path, base);
    var steps := seq(|base| - n, _ => "..") + path[n..];
    if steps == [] then ["."] else steps
  }

  /** The tree that a recursive scan of `base` builds for a place below it. */
  function Plain(place: Place, base: Path): Content
    decreases place.entries, 1
  {
    Content(if place.path == base then base else Relative(place.path, base), Files(place.entries),
            PlainInside(place.path, place.entries, base))
  }

  function PlainInside(path: Path, entries: seq<Entry>, base: Path): seq<Content>
    decreases entries, 0
  {
    if entries == [] then []
    else PlainInside(path, entries[..|entries| - 1], base) + PlainEntry(path, entries[|entries| - 1], base)
  }

  function PlainEntry(path: Path, e: Entry, base: Path): seq<Content>
    decreases e, 2
  {
    match e
    case Dir(name, entries) => [Plain(Place(path + [name], entries), base)]
    case _ => []
  }

  /** The paths of a place and of all directories below it, with multiplicity. */
  function AllPaths(place: Place): multiset<Path>
    decreases place.entries, 1
  {
    multiset{place.path} + PathsInside(place.path, place.entries)
  }

  function PathsInside(path: Path, entries: seq<Entry>): multiset<Path>
    decreases entries, 0
  {
    if entries == [] then multiset{}
    else PathsInside(path, entries[..|entries| - 1]) + PathsIn(path, entries[|entries| - 1])
  }

  function PathsIn(path: Path, e: Entry): multiset<Path>
    decreases e, 2
  {
    match e
    case Dir(name, entries) => AllPaths(Place(path + [name], entries))
    case _ => multiset{}
  }

  lemma {:induction false} PlainInsideIs(path: Path, entries: seq<Entry>, base: Path)
    ensures |PlainInside(path, entries, base)| == |Inside(path, entries)|
    ensures forall i :: 0 <= i < |Inside(path, entries)| ==>
      PlainInside(path, entries, base)[i] == Plain(Inside(path, entries)[i], base)
    decreases |entries|
  {
    if entries != [] {
      PlainInsideIs(path, entries[..|entries| - 1], base);
    }
  }

  lemma {:induction false} InsideSmaller(path: Path, entries: seq<Entry>, i: nat)
    requires i < |Inside(path, entries)|
    ensures Count(Inside(path, entries)[i].entries) < Count(entries)
    decreases |entries|
  {
    var front := entries[..|entries| - 1];
    if i < |Inside(path, front)| {
      InsideSmaller(path, front, i);
    }
  }

  // ---- Every directory exactly once -----------------------------------------------------------------------------

  /** Following the names from a listing leads to a directory. */
  predicate Reaches(entries: seq<Entry>, names: Path)
    decreases |names|
  {
    names == [] ||
    (Subdirectory(entries, names[0]).Some? && Reaches(Subdirectory(entries, names[0]).value, names[1..]))
  }

  predicate IsBelow(place: Place, path: Path) {
    place.path <= path && Reaches(place.entries, path[|place.path|..])
  }

  /** The paths a scan accounts for are exactly those that lead to a directory, each once. */
  lemma {:induction false} EachDirectoryOnce(place: Place, path: Path)
    requires Proper(place.entries)
    ensures AllPaths(place)[path] == if IsBelow(place, path) then 1 else 0
    decreases place.entries, 1
  {
    OnceInside(place.path, place.entries, path);
    if place.path <= path {
      assert path[|place.path|..] == [] <==> path == place.path;
      if path != place.path {
        assert path[|place.path|..][1..] == path[|place.path| + 1..];
      }
    }
  }

  lemma {:induction false} OnceInside(base: Path, entries: seq<Entry>, path: Path)
    requires Proper(entries)
    ensures PathsInside(base, entries)[path] ==
      if base < path && Subdirectory(entries, path[|base|]).Some?
         && Reaches(Subdirectory(entries, path[|base|]).value, path[|base| + 1..]) then 1 else 0
    decreases entries, 0
  {
    if entries != [] {
      var front, last := entries[..|entries| - 1], entries[|entries| - 1];
      OnceInside(base, front, path);
      assert last in entries;
      if base < path {
        SubdirectoryLast(entries, path[|base|]);
      }
      if last.Dir? {
        var place := Place(base + [last.name], last.entries);
        EachDirectoryOnce(place, path);
        assert place.path <= path <==> base < path && path[|base|] == last.name;
      }
    }
  }

  lemma {:induction false} SubdirectoryLast(entries: seq<Entry>, name: string)
    requires entries != [] && forall i, j :: 0 <= i < j < |entries| ==> entries[i].name != entries[j].name
    ensures var last := entries[|entries| - 1];
      Subdirectory(entries, name) ==
        if last.Dir? && last.name == name then Some(last.entries) else Subdirectory(entries[..|entries| - 1], name)
    ensures entries[|entries| - 1].name == name ==> Subdirectory(entries[..|entries| - 1], name) == None
    decreases |entries|
  {
    if |entries| > 1 {
      SubdirectoryLast(entries[1..], name);
      assert entries[1..][..|entries| - 2] == entries[..|entries| - 1][1..];
    } else {
      assert entries[1..] == [];
    }
  }

  // ---- Bookkeeping ----------------------------------------------------------------------------------------------

  /** Paths of several places, each with everything below it. */
  function Pending(places: seq<Place>): multiset<Path> {
    if places == [] then multiset{} else AllPaths(places[0]) + Pending(places[1..])
  }

  lemma {:induction false} PendingAppend(a: seq<Place>, b: seq<Place>)
    ensures Pending(a + b) == Pending(a) + Pending(b)
    decreases |a|
  {
    if a == [] {
      assert a + b == b;
    } else {
      assert (a + b)[1..] == a[1..] + b;
      PendingAppend(a[1..], b);
    }
  }

  lemma {:induction false} PendingInside(path: Path, entries: seq<Entry>)
    ensures Pending(Inside(path, entries)) == PathsInside(path, entries)
    decreases |entries|
  {
    if entries != [] {
      var front, last := Inside(path, entries[..|entries| - 1]), entries[|entries| - 1];
      PendingInside(path, entries[..|entries| - 1]);
      if last.Dir? {
        var place := Place(path + [last.name], last.entries);
        PendingAppend(front, [place]);
        assert [place][1..] == [];
      } else {
        assert Inside(path, entries) == front;
      }
    }
  }

  /** Visiting the first pending place and queueing what is inside it accounts for exactly its own path. */
  lemma VisitPending(places: seq<Place>)
    requires places != []
    ensures var inside := Inside(places[0].path, places[0].entries);
      Pending(places) == multiset{places[0].path} + Pending(places[1..] + inside)
  {
    var inside := Inside(places[0].path, places[0].entries);
    PendingInside(places[0].path, places[0].entries);
    PendingAppend(places[1..], inside);
  }

  /** The directories still to visit, those below the pending ones included. */
  function Work(places: seq<Place>): nat {
    if places == [] then 0 else 1 + Count(places[0].entries) + Work(places[1..])
  }

  lemma {:induction false} WorkAppend(a: seq<Place>, b: seq<Place>)
    ensures Work(a + b) == Work(a) + Work(b)
    decreases |a|
  {
    if a == [] {
      assert a + b == b;
    } else {
      assert (a + b)[1..] == a[1..] + b;
      WorkAppend(a[1..], b);
    }
  }

  lemma {:induction false} WorkInside(path: Path, entries: seq<Entry>)
    ensures Work(Inside(path, entries)) == Count(entries)
    decreases |entries|
  {
    if entries != [] {
      var last := entries[|entries| - 1];
      WorkInside(path, entries[..|entries| - 1]);
      if last.Dir? {
        var place := Place(path + [last.name], last.entries);
        WorkAppend(Inside(path, entries[..|entries| - 1]), [place]);
        assert [place][1..] == [];
      } else {
        assert Inside(path, entries) == Inside(path, entries[..|entries| - 1]);
      }
    }
  }

  lemma VisitWork(places: seq<Place>)
    requires places != []
    ensures Work(places[1..] + Inside(places[0].path, places[0].entries)) == Work(places) - 1
  {
    WorkInside(places[0].path, places[0].entries);
    WorkAppend(places[1..], Inside(places[0].path, places[0].entries));
  }

  lemma ListingStep(path: Path, entries: seq<Entry>, n: nat)
    requires n < |entries|
    ensures var e := entries[n];
      && Files(entries[..n + 1]) == Files(entries[..n]) + (if e.File? then [e.name] else [])
      && Inside(path, entries[..n + 1])
         == Inside(path, entries[..n]) + (if e.Dir? then [Place(path + [e.name], e.entries)] else [])
  {
    assert entries[..n + 1][..n] == entries[..n];
  }

  /** The iterator finds each inside place under its own path. */
  lemma {:induction false} InsideListed(fs: seq<Entry>, path: Path, entries: seq<Entry>, all: seq<Entry>, n: nat)
    requires n <= |all| && entries == all[..n] && Proper(all) && Listing(fs, path) == Some(all)
    ensures forall p :: p in Inside(path, entries) ==> Listing(fs, p.path) == Some(p.entries) && Proper(p.entries)
    decreases n
  {
    if n > 0 {
      var last := entries[n - 1];
      assert entries[..n - 1] == all[..n - 1];
      InsideListed(fs, path, entries[..n - 1], all, n - 1);
      if last.Dir? {
        FindsSubdirectory(all, n - 1);
        assert (path + [last.name])[..|path|] == path;
        assert last in all;
      }
    }
  }

  lemma {:induction false} FindsSubdirectory(entries: seq<Entry>, i: nat)
    requires i < |entries| && entries[i].Dir?
    requires forall i, j :: 0 <= i < j < |entries| ==> entries[i].name != entries[j].name
    ensures Subdirectory(entries, entries[i].name) == Some(entries[i].entries)
    decreases |entries|
  {
    if i > 0 {
      assert entries[0].name != entries[i].name;
      FindsSubdirectory(entries[1..], i - 1);
    }
  }

  lemma RelativeBelow(base: Path, below: Path)
    requires below != []
    ensures Relative(base + below, base) == below
  {
    CommonWithOwnPrefix(base, below);
    assert seq(0, _ => "..") + below == below;
  }

  lemma {:induction false} CommonWithOwnPrefix(base: Path, below: Path)
    ensures CommonPrefix(base + below, base) == |base|
    decreases |base|
  {
    if base != [] {
      assert (base + below)[1..] == base[1..] + below;
      CommonWithOwnPrefix(base[1..], below);
    }
  }

  // ---- What the tree says, in plain words -------------------------------------------------------------------------

  /** The files of a listing are its regular files, by name, and the directories inside are its directories, both in the
      order of the listing, and nothing else counts. */
  lemma ListingParts(path: Path, a: seq<Entry>, b: seq<Entry>, e: Entry)
    ensures Files(a + b) == Files(a) + Files(b) && Inside(path, a + b) == Inside(path, a) + Inside(path, b)
    ensures Files([]) == [] && Inside(path, []) == []
    ensures Files([e]) == (if e.File? then [e.name] else [])
    ensures Inside(path, [e]) == if e.Dir? then [Place(path + [e.name], e.entries)] else []
  {
    assert [e][..0] == [];
    FilesAppend(a, b);
    InsideAppend(path, a, b);
  }

  lemma {:induction false} FilesAppend(a: seq<Entry>, b: seq<Entry>)
    ensures Files(a + b) == Files(a) + Files(b)
    decreases |b|
  {
    if b == [] {
      assert a + b == a;
    } else {
      assert (a + b)[..|a + b| - 1] == a + b[..|b| - 1];
      FilesAppend(a, b[..|b| - 1]);
    }
  }

  lemma {:induction false} InsideAppend(path: Path, a: seq<Entry>, b: seq<Entry>)
    ensures Inside(path, a + b) == Inside(path, a) + Inside(path, b)
    decreases |b|
  {
    if b == [] {
      assert a + b == a;
    } else {
      assert (a + b)[..|a + b| - 1] == a + b[..|b| - 1];
      InsideAppend(path, a, b[..|b| - 1]);
    }
  }

  /** The first of the contents whose path ends in a name. */
  function Named(contents: seq<Content>, name: string): Option<Content> {
    if contents == [] then None
    else if contents[0].root != [] && contents[0].root[|contents[0].root| - 1] == name then Some(contents[0])
    else Named(contents[1..], name)
  }

  /** Walking down the tree by the last names of the paths stored in it. */
  function Follow(c: Content, names: Path): Option<Content>
    decreases |names|
  {
    if names == [] then Some(c)
    else
      match Named(c.directories, names[0])
      case None => None
      case Some(child) => Follow(child, names[1..])
  }

  lemma {:induction false} NamedAppend(a: seq<Content>, b: seq<Content>, name: string)
    ensures Named(a + b, name) == if Named(a, name).Some? then Named(a, name) else Named(b, name)
    decreases |a|
  {
    if a == [] {
      assert a + b == b;
    } else {
      assert (a + b)[1..] == a[1..] + b;
      NamedAppend(a[1..], b, name);
    }
  }

  /** Among the contents of a directory's directories, the name finds what it finds in the listing. */
  lemma {:induction false} NamedIsSubdirectory(base: Path, below: Path, entries: seq<Entry>, name: string)
    ensures Named(PlainInside(base + below, entries, base), name) ==
      match Subdirectory(entries, name)
      case None => None
      case Some(found) => Some(Plain(Place(base + below + [name], found), base))
    decreases |entries|
  {
    if entries != [] {
      var front, last := entries[..|entries| - 1], entries[|entries| - 1];
      NamedIsSubdirectory(base, below, front, name);
      NamedAppend(PlainInside(base + below, front, base), PlainEntry(base + below, last, base), name);
      SubdirectorySnoc(front, last, name);
      assert entries == front + [last];
      NamedEntry(base, below, last, name);
    }
  }

  lemma {:induction false} SubdirectorySnoc(front: seq<Entry>, last: Entry, name: string)
    ensures Subdirectory(front + [last], name) ==
      if Subdirectory(front, name).Some? then Subdirectory(front, name)
      else if last.Dir? && last.name == name then Some(last.entries) else None
    decreases |front|
  {
    if front == [] {
      assert front + [last] == [last] && [last][1..] == [];
    } else {
      assert (front + [last])[1..] == front[1..] + [last];
      SubdirectorySnoc(front[1..], last, name);
    }
  }

  lemma {:induction false} NamedEntry(base: Path, below: Path, e: Entry, name: string)
    ensures Named(PlainEntry(base + below, e, base), name) ==
      if e.Dir? && e.name == name then Some(Plain(Place(base + below + [name], e.entries), base)) else None
  {
    if e.Dir? {
      RelativeBelow(base, below + [e.name]);
      assert base + below + [e.name] == base + (below + [e.name]);
      assert base + below + [e.name] != base;
      var child := Plain(Place(base + below + [e.name], e.entries), base);
      assert child.root == below + [e.name] && child.root[|child.root| - 1] == e.name;
      assert [child][1..] == [];
    }
  }

  lemma {:induction false} ListingFront(entries: seq<Entry>, name: string, rest: Path)
    ensures Listing(entries, [name] + rest) ==
      if Subdirectory(entries, name) == None then None else Listing(Subdirectory(entries, name).value, rest)
    decreases |rest|
  {
    var path := [name] + rest;
    if rest == [] {
      assert path[..0] == [] && path == [name];
    } else {
      assert path[..|path| - 1] == [name] + rest[..|rest| - 1];
      ListingFront(entries, name, rest[..|rest| - 1]);
    }
  }

  /** The content for a listing that is found below, if it is. */
  function ContentFor(found: Option<seq<Entry>>, base: Path, below: Path): Option<Content> {
    match found
    case None => None
    case Some(entries) => Some(Plain(Place(base + below, entries), base))
  }

  lemma {:induction false} FollowIsListing(base: Path, above: Path, entries: seq<Entry>, below: Path)
    ensures Follow(Plain(Place(base + above, entries), base), below)
         == ContentFor(Listing(entries, below), base, above + below)
    decreases |below|
  {
    if below == [] {
      assert above + below == above;
    } else {
      FollowStep(base, above, entries, below);
      HeadMoves(above, below);
      var sub := Subdirectory(entries, below[0]);
      if sub.Some? {
        FollowIsListing(base, above + [below[0]], sub.value, below[1..]);
      }
    }
  }

  lemma HeadMoves(above: Path, below: Path)
    requires below != []
    ensures above + [below[0]] + below[1..] == above + below
  {
  }

  lemma {:induction false} FollowStep(base: Path, above: Path, entries: seq<Entry>, below: Path)
    requires below != []
    ensures var c, sub := Plain(Place(base + above, entries), base), Subdirectory(entries, below[0]);
      && Listing(entries, below) == (if sub == None then None else Listing(sub.value, below[1..]))
      && Follow(c, below) == if sub == None then None
         else Follow(Plain(Place(base + (above + [below[0]]), sub.value), base), below[1..])
  {
    NamedIsSubdirectory(base, above, entries, below[0]);
    assert below == [below[0]] + below[1..];
    ListingFront(entries, below[0], below[1..]);
    assert base + above + [below[0]] == base + (above + [below[0]]);
  }

  /** A recursive scan finds exactly the directories there are: walking down the tree it builds along any names leads
      somewhere exactly if there is such a directory, and then to its path below the scanned one, its files, and one
      child for each of its directories. */
  lemma {:induction false} PlainIsComplete(base: Path, entries: seq<Entry>, below: Path)
    ensures var found, listing := Follow(Plain(Place(base, entries), base), below), Listing(entries, below);
      && (found.Some? <==> listing.Some?)
      && (found.Some? ==>
            && found.value.root == (if below == [] then base else below)
            && found.value.files == Files(listing.value)
            && |found.value.directories| == |Inside(base + below, listing.value)|)
  {
    var listing := Listing(entries, below);
    FollowIsListing(base, [], entries, below);
    assert base + [] == base && [] + below == below;
    if listing.Some? {
      PlainInsideIs(base + below, listing.value, base);
      if below != [] {
        RelativeBelow(base, below);
        assert |base + below| > |base|;
      }
    }
  }

  // ---- The class ------------------------------------------------------------------------------------------------

  class DirectoryContent {
    var root: Path
    var files: seq<string>
    var directories: seq<DirectoryContent>
    var flatDirectory: bool

    constructor (createFrom: Path)
      ensures Waits(this, createFrom) && !flatDirectory
    {
      root, files, directories, flatDirectory := createFrom, [], [], false;
    }

    /** The body of the iteration over a directory's entries. */
    method Add(entry: Entry)
      modifies this`files, this`directories
      ensures files == old(files) + if entry.File? then [entry.name] else []
      ensures !entry.Dir? ==> directories == old(directories)
      ensures entry.Dir? ==>
        && |directories| == |old(directories)| + 1
        && directories == old(directories) + [directories[|old(directories)|]]
        && fresh(directories[|old(directories)|])
        && Waits(directories[|old(directories)|], root + [entry.name])
    {
      if entry.Dir? {
        var sub := new DirectoryContent(root + [entry.name]);
        directories := directories + [sub];
      }
      if entry.File? {
        files := files + [entry.name];
      }
    }

    /** The iteration over a directory's entries. */
    method AddAll(entries: seq<Entry>)
      requires files == [] && directories == []
      modifies this`files, this`directories
      ensures files == Files(entries) && |directories| == |Inside(root, entries)|
      ensures forall i :: 0 <= i < |directories| ==>
        fresh(directories[i]) && Waits(directories[i], Inside(root, entries)[i].path)
      ensures forall i, j :: 0 <= i < j < |directories| ==> directories[i] != directories[j]
    {
      ghost var inside: seq<Place> := [];
      for n := 0 to |entries|
        invariant files == Files(entries[..n]) && inside == Inside(root, entries[..n]) && |directories| == |inside|
        invariant forall i :: 0 <= i < |inside| ==> fresh(directories[i]) && Waits(directories[i], inside[i].path)
        invariant forall i, j :: 0 <= i < j < |inside| ==> directories[i] != directories[j]
      {
        ListingStep(root, entries, n);
        ghost var was, insideWas := directories, inside;
        Add(entries[n]);
        inside := Inside(root, entries[..n + 1]);
        assert forall i :: 0 <= i < |was| ==> directories[i] == was[i] && inside[i] == insideWas[i];
      }
      assert entries[..|entries|] == entries;
    }

    /** What the traversal does to one receptacle before it queues the new directories. It fails, as
        directory_iterator does, when there is no directory at the path. */
    method Traverse(fs: seq<Entry>, top: DirectoryContent) returns (ok: bool)
      requires Waits(this, root)
      modifies this
      ensures flatDirectory == old(flatDirectory)
      ensures ok == Listing(fs, old(root)).Some?
      ensures !ok ==> Waits(this, old(root))
      ensures ok ==> var entries := Listing(fs, old(root)).value; var inside := Inside(old(root), entries);
        && root == (if this == top then old(root) else Relative(old(root), old(top.root)))
        && files == Files(entries)
        && |directories| == |inside|
        && (forall i :: 0 <= i < |inside| ==> fresh(directories[i]) && Waits(directories[i], inside[i].path))
        && (forall i, j :: 0 <= i < j < |inside| ==> directories[i] != directories[j])
    {
      var listing := Listing(fs, root);
      if listing == None {
        return false;
      }
      var entries := listing.value;
      AddAll(entries);
      if this != top {
        root := Relative(root, top.root);
      }
      return true;
    }

    /** `shortening` is the worklist length beyond which its finished front is dropped (4096 in the code). `objects`
        are the nodes of the tree built, `visited` the paths whose directory was enumerated, in order. */
    method Scan(fs: seq<Entry>, recursive: bool, shortening: nat)
        returns (ok: bool, ghost objects: set<DirectoryContent>, ghost visited: seq<Path>)
      requires Waits(this, root) && Proper(fs)
      modifies this
      ensures ok == Listing(fs, old(root)).Some?
      ensures ok && recursive ==>
        && Mirrors(this, Plain(Place(old(root), Listing(fs, old(root)).value), old(root)), objects)
        && multiset(visited) == AllPaths(Place(old(root), Listing(fs, old(root)).value))
        && fresh(objects - {this})
      ensures ok && !recursive ==> IsFlat(old(root), Listing(fs, old(root)).value)
    {
      if recursive {
        ok, objects, visited := ScanRecursive(fs, shortening);
      } else {
        ok := ScanFlat(fs);
        objects, visited := {this}, [];
      }
    }

    method ScanRecursive(fs: seq<Entry>, shortening: nat)
        returns (ok: bool, ghost objects: set<DirectoryContent>, ghost visited: seq<Path>)
      requires Waits(this, root) && Proper(fs)
      modifies this
      ensures ok == Listing(fs, old(root)).Some?
      ensures ok ==> Mirrors(this, Plain(Place(old(root), Listing(fs, old(root)).value), old(root)), objects)
      ensures ok ==> multiset(visited) == AllPaths(Place(old(root), Listing(fs, old(root)).value))
      ensures fresh(objects - {this})
    {
      objects, visited := {this}, [];
      ghost var top := Place(root, Listing(fs, root).GetOr([]));
      ghost var b := Build([this], [Node(root, [], [])], [top], []);
      StartsScanning(fs, b, top);
      ok, b, visited := WorkOff(fs, shortening, top, b);
      if ok {
        objects := set d | d in b.all;
        FinishedScanning(fs, b, top, visited, objects);
      }
    }

    /** The loop over the worklist, which holds nothing but the directory to scan to begin with. */
    method WorkOff(fs: seq<Entry>, shortening: nat, ghost top: Place, ghost b0: Build)
        returns (ok: bool, ghost b: Build, ghost visited: seq<Path>)
      requires b0.all == [this] && b0.first == [] && root == top.path && Scanning(fs, b0, top, []) && Linked(b0)
      modifies this
      ensures ok == Listing(fs, top.path).Some?
      ensures ok ==> Scanning(fs, b, top, visited) && Linked(b) && |b.first| == |b.all| && b.all[0] == this
      ensures ok ==> forall k :: 0 < k < |b.all| ==> fresh(b.all[k])
    {
      b, visited := b0, [];
      var dirStack := [this];
      var i := 0;
      while i != |dirStack|
        invariant 0 <= i <= |dirStack| && IsTail(dirStack, b.all) && i + |b.all| - |dirStack| == |b.first|
        invariant Scanning(fs, b, top, visited) && Linked(b)
        invariant b.all[0] == this && root == top.path && forall k :: 0 < k < |b.all| ==> fresh(b.all[k])
        invariant i > 0 ==> Listing(fs, top.path).Some?
        decreases Left(b)
      {
        var receptacle := dirStack[i];
        TailAt(dirStack, i, b.all);
        ghost var all := b.all;
        ok, b, visited := receptacle.Visit(fs, this, top, b, visited);
        if !ok {
          return;
        }
        dirStack, i := Queue(dirStack, i, receptacle.directories, shortening, all);
      }
      ok := true;
    }

    /** Queues new nodes behind the one just traversed, drops the finished front if the list has become long, and
        moves on. `all` is everything queued before. */
    static method Queue(dirStack: seq<DirectoryContent>, i: nat, directories: seq<DirectoryContent>, shortening: nat,
                        ghost all: seq<DirectoryContent>)
        returns (dirStack': seq<DirectoryContent>, i': nat)
      requires i < |dirStack| && IsTail(dirStack, all)
      ensures i' <= |dirStack'| && IsTail(dirStack', all + directories)
      ensures i' + |all + directories| - |dirStack'| == i + 1 + |all| - |dirStack|
    {
      TailGrows(dirStack, directories, all);
      dirStack', i' := dirStack + directories, i;
      if |dirStack'| > shortening && i' >= shortening / 4 {
        dirStack' := dirStack'[i'..];
        i' := 0;
      }
      i' := i' + 1;
    }

    /** The traversal of the next node of the worklist, seen from the whole of what is being built. */
    method Visit(fs: seq<Entry>, scanned: DirectoryContent, ghost top: Place, ghost b: Build, ghost visited: seq<Path>)
        returns (ok: bool, ghost b': Build, ghost visited': seq<Path>)
      requires Scanning(fs, b, top, visited) && Linked(b) && |b.first| < |b.all|
      requires this == b.all[|b.first|] && scanned == b.all[0] && scanned.root == top.path
      modifies this
      ensures ok == Listing(fs, top.path).Some?
      ensures ok ==>
        && Scanning(fs, b', top, visited') && Linked(b') && scanned.root == top.path
        && b'.all == b.all + directories && |b'.first| == |b.first| + 1 && Left(b') < Left(b)
        && forall k :: |b.all| <= k < |b'.all| ==> fresh(b'.all[k])
    {
      assert IsNode(this, b.nodes[|b.first|]);
      ok := Traverse(fs, scanned);
      b', visited' := b, visited;
      if ok {
        ScanningGoesOn(fs, b, top, visited, directories);
        b' := Grown(b, directories, top.path);
        visited' := visited + [b.places[|b.first|].path];
        assert forall k :: 0 <= k < |b.all| && k != |b.first| ==> IsNode(b.all[k], b.nodes[k]);
        LinksGrow(b, directories, top.path);
      }
    }

    method ScanFlat(fs: seq<Entry>) returns (ok: bool)
      requires Waits(this, root)
      modifies this
      ensures ok == Listing(fs, old(root)).Some?
      ensures ok ==> IsFlat(old(root), Listing(fs, old(root)).value)
    {
      ok := Traverse(fs, this);
      if ok {
        flatDirectory := true;
        MakeRelative(directories, root, Inside(root, Listing(fs, root).value));
        root := ["."];
      }
    }

    static method MakeRelative(directories: seq<DirectoryContent>, base: Path, ghost inside: seq<Place>)
      requires |directories| == |inside|
      requires forall j, k :: 0 <= j < k < |directories| ==> directories[j] != directories[k]
      requires forall k :: 0 <= k < |directories| ==> Waits(directories[k], inside[k].path)
      modifies directories
      ensures forall k :: 0 <= k < |directories| ==> Waits(directories[k], Relative(inside[k].path, base))
    {
      for i := 0 to |directories|
        invariant forall k :: 0 <= k < i ==> Waits(directories[k], Relative(inside[k].path, base))
        invariant forall k :: i <= k < |directories| ==> Waits(directories[k], inside[k].path)
      {
        var d := directories[i];
        d.root := Relative(d.root, base);
      }
    }

    /** The result of a scan that is not recursive: files, and directories by their relative paths only. */
    ghost predicate IsFlat(base: Path, entries: seq<Entry>)
      reads this, directories
    {
      var inside := Inside(base, entries);
      && flatDirectory && root == ["."] && files == Files(entries)
      && |directories| == |inside|
      && forall i :: 0 <= i < |inside| ==> Waits(directories[i], Relative(inside[i].path, base))
    }
  }

  lemma {:induction false} ListingProper(fs: seq<Entry>, path: Path)
    requires Proper(fs) && Listing(fs, path).Some?
    ensures Proper(Listing(fs, path).value)
    decreases |path|
  {
    if path != [] {
      ListingProper(fs, path[..|path| - 1]);
      SubdirectoryProper(Listing(fs, path[..|path| - 1]).value, path[|path| - 1]);
    }
  }

  lemma {:induction false} SubdirectoryProper(entries: seq<Entry>, name: string)
    requires (forall e :: e in entries && e.Dir? ==> Proper(e.entries)) && Subdirectory(entries, name).Some?
    ensures Proper(Subdirectory(entries, name).value)
    decreases |entries|
  {
    if !(entries[0].Dir? && entries[0].name == name) {
      assert forall e :: e in entries[1..] ==> e in entries;
      SubdirectoryProper(entries[1..], name);
    }
  }

  /** Constructed for a path and not scanned yet. */
  ghost predicate Waits(d: DirectoryContent, path: Path)
    reads d
  {
    d.root == path && d.files == [] && d.directories == []
  }

  /** The object graph below `d` is the tree `c`. */
  ghost predicate Mirrors(d: DirectoryContent, c: Content, objects: set<DirectoryContent>)
    reads objects
    decreases c
  {
    && d in objects
    && d.root == c.root && d.files == c.files && |d.directories| == |c.directories|
    && forall i :: 0 <= i < |c.directories| ==> Mirrors(d.directories[i], c.directories[i], objects)
  }

  // ---- What the worklist has built so far -----------------------------------------------------------------------

  /** The fields of one node. */
  datatype Node = Node(root: Path, files: seq<string>, directories: seq<DirectoryContent>)

  /** Every node ever queued, in order, with its fields, the place it stands for and, if it was already traversed, the
      index of its first child. The children of a node stand next to each other. */
  datatype Build = Build(all: seq<DirectoryContent>, nodes: seq<Node>, places: seq<Place>, first: seq<nat>)

  ghost predicate Linked(b: Build)
    reads b.all
  {
    |b.nodes| == |b.all| && forall k :: 0 <= k < |b.all| ==> IsNode(b.all[k], b.nodes[k])
  }

  ghost predicate IsNode(d: DirectoryContent, n: Node)
    reads d
  {
    d.root == n.root && d.files == n.files && d.directories == n.directories
  }

  lemma LinksGrow(b: Build, children: seq<DirectoryContent>, base: Path)
    requires |b.first| < |b.all| == |b.nodes| == |b.places|
    requires forall k :: 0 <= k < |b.all| && k != |b.first| ==> IsNode(b.all[k], b.nodes[k])
    requires IsNode(b.all[|b.first|], Grown(b, children, base).nodes[|b.first|])
    requires var place := b.places[|b.first|]; var inside := Inside(place.path, place.entries);
      |children| == |inside| && forall i :: 0 <= i < |children| ==> Waits(children[i], inside[i].path)
    ensures Linked(Grown(b, children, base))
  {
    var b' := Grown(b, children, base);
    forall k | 0 <= k < |b'.all|
      ensures IsNode(b'.all[k], b'.nodes[k])
    {
      if k >= |b.all| {
        assert b'.all[k] == children[k - |b.all|];
      }
    }
  }

  ghost predicate PlacesOk(fs: seq<Entry>, places: seq<Place>, base: Path) {
    forall k :: 0 <= k < |places| ==>
      && Listing(fs, places[k].path) == Some(places[k].entries) && Proper(places[k].entries)
      && if k == 0 then places[k].path == base else |places[k].path| > |base|
  }

  ghost predicate DoneAt(b: Build, base: Path, k: nat)
    requires k < |b.first| <= |b.all| == |b.places| == |b.nodes|
  {
    var node, place, from := b.nodes[k], b.places[k], b.first[k];
    var inside := Inside(place.path, place.entries);
    && node.root == (if k == 0 then base else Relative(place.path, base))
    && node.files == Files(place.entries)
    && from + |inside| <= |b.all|
    && node.directories == b.all[from..from + |inside|]
    && b.places[from..from + |inside|] == inside
  }

  ghost predicate Built(b: Build, base: Path) {
    && |b.first| <= |b.all| == |b.places| == |b.nodes| && |b.all| > 0
    && (forall j, k :: 0 <= j < k < |b.all| ==> b.all[j] != b.all[k])
    && (forall k :: 0 <= k < |b.first| ==> DoneAt(b, base, k))
    && (forall k :: |b.first| <= k < |b.all| ==> b.nodes[k] == Node(b.places[k].path, [], []))
  }

  ghost function Unvisited(places: seq<Place>): (nodes: seq<Node>)
    ensures |nodes| == |places|
  {
    seq(|places|, i requires 0 <= i < |places| => Node(places[i].path, [], []))
  }

  /** The next waiting node was traversed and its new children queued. */
  ghost function Grown(b: Build, children: seq<DirectoryContent>, base: Path): Build
    requires |b.first| < |b.places| == |b.nodes|
  {
    var p := |b.first|;
    var place := b.places[p];
    var inside := Inside(place.path, place.entries);
    var node := Node(if p == 0 then base else Relative(place.path, base), Files(place.entries), children);
    Build(b.all + children, b.nodes[p := node] + Unvisited(inside), b.places + inside, b.first + [|b.all|])
  }

  lemma GrowsBuilt(b: Build, children: seq<DirectoryContent>, base: Path)
    requires Built(b, base) && |b.first| < |b.all|
    requires |children| == |Inside(b.places[|b.first|].path, b.places[|b.first|].entries)|
    requires forall i :: 0 <= i < |children| ==> children[i] !in b.all
    requires forall i, j :: 0 <= i < j < |children| ==> children[i] != children[j]
    ensures Built(Grown(b, children, base), base)
  {
    var b' := Grown(b, children, base);
    NewlyDone(b, children, base);
    StillDone(b, children, base);
    StillWaiting(b, children, base);
  }

  lemma StillDone(b: Build, children: seq<DirectoryContent>, base: Path)
    requires |b.first| < |b.all| == |b.places| == |b.nodes|
    requires |children| == |Inside(b.places[|b.first|].path, b.places[|b.first|].entries)|
    requires forall k :: 0 <= k < |b.first| ==> DoneAt(b, base, k)
    ensures forall k :: 0 <= k < |b.first| ==> DoneAt(Grown(b, children, base), base, k)
  {
    var b' := Grown(b, children, base);
    forall k | 0 <= k < |b.first|
      ensures DoneAt(b', base, k)
    {
      DoneStays(b, b', base, k);
    }
  }

  lemma StillWaiting(b: Build, children: seq<DirectoryContent>, base: Path)
    requires |b.first| < |b.all| == |b.places| == |b.nodes|
    requires |children| == |Inside(b.places[|b.first|].path, b.places[|b.first|].entries)|
    requires forall k :: |b.first| <= k < |b.all| ==> b.nodes[k] == Node(b.places[k].path, [], [])
    ensures var b' := Grown(b, children, base);
      forall k :: |b.first| < k < |b'.all| ==> b'.nodes[k] == Node(b'.places[k].path, [], [])
  {
  }

  lemma NewlyDone(b: Build, children: seq<DirectoryContent>, base: Path)
    requires |b.first| < |b.all| == |b.places| == |b.nodes|
    requires |children| == |Inside(b.places[|b.first|].path, b.places[|b.first|].entries)|
    ensures DoneAt(Grown(b, children, base), base, |b.first|)
  {
    var b', from := Grown(b, children, base), |b.all|;
    var inside := Inside(b.places[|b.first|].path, b.places[|b.first|].entries);
    assert b'.places[|b.first|] == b.places[|b.first|] && b'.first[|b.first|] == from;
  }

  lemma DoneStays(b: Build, b': Build, base: Path, k: nat)
    requires k < |b.first| <= |b'.first| && |b.first| <= |b.all| == |b.places| == |b.nodes|
    requires |b'.first| <= |b'.all| == |b'.places| == |b'.nodes|
    requires b.all <= b'.all && b.places <= b'.places && b.first <= b'.first && b'.nodes[k] == b.nodes[k]
    requires DoneAt(b, base, k)
    ensures DoneAt(b', base, k)
  {
    var from, to := b.first[k], b.first[k] + |Inside(b.places[k].path, b.places[k].entries)|;
    assert b'.all[from..to] == b.all[from..to];
    assert b'.places[from..to] == b.places[from..to];
  }

  lemma GrowsPlaces(fs: seq<Entry>, b: Build, base: Path)
    requires |b.first| < |b.places| && PlacesOk(fs, b.places, base)
    ensures var place := b.places[|b.first|];
      var places := b.places + Inside(place.path, place.entries);
      && PlacesOk(fs, places, base)
      && Pending(b.places[|b.first|..]) == multiset{place.path} + Pending(places[|b.first| + 1..])
      && Work(places[|b.first| + 1..]) < Work(b.places[|b.first|..])
  {
    PlacesOkAppend(fs, b.places, b.places[|b.first|], base);
    VisitPlace(b.places, |b.first|);
  }

  lemma VisitPlace(places: seq<Place>, n: nat)
    requires n < |places|
    ensures var more := places + Inside(places[n].path, places[n].entries);
      && Pending(places[n..]) == multiset{places[n].path} + Pending(more[n + 1..])
      && Work(more[n + 1..]) < Work(places[n..])
  {
    var waiting, inside := places[n..], Inside(places[n].path, places[n].entries);
    VisitPending(waiting);
    VisitWork(waiting);
    assert (places + inside)[n + 1..] == waiting[1..] + inside;
  }

  lemma PlacesOkAppend(fs: seq<Entry>, places: seq<Place>, place: Place, base: Path)
    requires PlacesOk(fs, places, base) && place in places
    ensures PlacesOk(fs, places + Inside(place.path, place.entries), base)
  {
    var inside := Inside(place.path, place.entries);
    assert place.entries[..|place.entries|] == place.entries;
    InsideListed(fs, place.path, place.entries, place.entries, |place.entries|);
    InsideDeeper(place.path, place.entries);
    forall k | 0 <= k < |inside|
      ensures Listing(fs, inside[k].path) == Some(inside[k].entries) && Proper(inside[k].entries)
      ensures |inside[k].path| > |base|
    {
      assert inside[k] in inside;
    }
  }

  lemma {:induction false} InsideDeeper(path: Path, entries: seq<Entry>)
    ensures forall p :: p in Inside(path, entries) ==> |p.path| == |path| + 1
    decreases |entries|
  {
    if entries != [] {
      InsideDeeper(path, entries[..|entries| - 1]);
    }
  }

  /** The worklist is what is left of everything ever queued after dropping a finished front. */
  ghost predicate IsTail<T>(tail: seq<T>, all: seq<T>) {
    |tail| <= |all| && tail == all[|all| - |tail|..]
  }

  lemma TailGrows<T>(tail: seq<T>, more: seq<T>, all: seq<T>)
    requires IsTail(tail, all)
    ensures IsTail(tail + more, all + more)
  {
  }

  lemma TailAt<T>(tail: seq<T>, i: nat, all: seq<T>)
    requires i < |tail| && IsTail(tail, all)
    ensures tail[i] == all[i + |all| - |tail|]
  {
  }

  /** The state of a scan between two turns of its loop. If the directory to scan is missing, there was no turn yet. */
  ghost predicate Scanning(fs: seq<Entry>, b: Build, top: Place, visited: seq<Path>) {
    && Built(b, top.path) && b.places[0] == top
    && (if Listing(fs, top.path).Some? then PlacesOk(fs, b.places, top.path) else |b.first| == 0)
    && multiset(visited) + Pending(b.places[|b.first|..]) == AllPaths(top)
  }

  ghost function Left(b: Build): nat
    requires |b.first| <= |b.places|
  {
    Work(b.places[|b.first|..])
  }

  lemma StartsScanning(fs: seq<Entry>, b: Build, top: Place)
    requires Proper(fs) && top.entries == Listing(fs, top.path).GetOr([])
    requires |b.all| == 1 && b.nodes == [Node(top.path, [], [])] && b.places == [top] && b.first == []
    ensures Scanning(fs, b, top, [])
  {
    if Listing(fs, top.path).Some? {
      ListingProper(fs, top.path);
    }
    assert [top][1..] == [] && b.places[0..] == [top];
  }

  lemma ScanningGoesOn(fs: seq<Entry>, b: Build, top: Place, visited: seq<Path>,
                       children: seq<DirectoryContent>)
    requires Scanning(fs, b, top, visited) && |b.first| < |b.all| && Listing(fs, top.path).Some?
    requires |children| == |Inside(b.places[|b.first|].path, b.places[|b.first|].entries)|
    requires forall i :: 0 <= i < |children| ==> children[i] !in b.all
    requires forall i, j :: 0 <= i < j < |children| ==> children[i] != children[j]
    ensures var b' := Grown(b, children, top.path);
      Scanning(fs, b', top, visited + [b.places[|b.first|].path]) && Left(b') < Left(b)
  {
    GrowsPlaces(fs, b, top.path);
    GrowsBuilt(b, children, top.path);
  }

  lemma FinishedScanning(fs: seq<Entry>, b: Build, top: Place, visited: seq<Path>,
                         objects: set<DirectoryContent>)
    requires Scanning(fs, b, top, visited) && Linked(b) && |b.first| == |b.all| && Listing(fs, top.path).Some?
    requires forall d :: d in b.all ==> d in objects
    ensures Mirrors(b.all[0], Plain(top, top.path), objects)
    ensures multiset(visited) == AllPaths(top)
  {
    assert b.places[|b.first|..] == [];
    EverythingFinished(fs, b, top.path);
    MirrorsPlain(b, top.path, 0, objects);
  }

  /** Node k has its fields as plain recursion gives them, and its children are where `first` says. */
  ghost predicate Finished(b: Build, base: Path, k: nat)
    requires k < |b.all| == |b.places| == |b.first|
    reads b.all
  {
    var d, place, from := b.all[k], b.places[k], b.first[k];
    && d.root == (if place.path == base then base else Relative(place.path, base))
    && d.files == Files(place.entries) && from + |d.directories| <= |b.all|
    && d.directories == b.all[from..from + |d.directories|]
    && b.places[from..from + |d.directories|] == Inside(place.path, place.entries)
  }

  ghost predicate AllFinished(b: Build, base: Path)
    reads b.all
  {
    && |b.all| == |b.places| == |b.first|
    && forall k {:trigger Finished(b, base, k)} :: 0 <= k < |b.all| ==> Finished(b, base, k)
  }

  lemma EverythingFinished(fs: seq<Entry>, b: Build, base: Path)
    requires Built(b, base) && Linked(b) && |b.first| == |b.all| && PlacesOk(fs, b.places, base)
    ensures AllFinished(b, base)
  {
    forall k | 0 <= k < |b.all|
      ensures Finished(b, base, k)
    {
      assert DoneAt(b, base, k) && IsNode(b.all[k], b.nodes[k]);
    }
  }

  /** When everything queued has been traversed, each node mirrors the plain recursion from its place. */
  lemma {:induction false} MirrorsPlain(b: Build, base: Path, k: nat, objects: set<DirectoryContent>)
    requires AllFinished(b, base) && k < |b.all|
    requires forall d :: d in b.all ==> d in objects
    ensures Mirrors(b.all[k], Plain(b.places[k], base), objects)
    decreases Count(b.places[k].entries)
  {
    var place, from := b.places[k], b.first[k];
    var to := from + |b.all[k].directories|;
    assert Finished(b, base, k);
    forall j | from <= j < to
      ensures Mirrors(b.all[j], Plain(b.places[j], base), objects)
    {
      ChildPlace(b, base, k, j);
      MirrorsPlain(b, base, j, objects);
    }
    MirrorsHere(b, base, k, objects);
  }

  lemma ChildPlace(b: Build, base: Path, k: nat, j: nat)
    requires k < |b.all| == |b.places| == |b.first| && Finished(b, base, k)
    requires b.first[k] <= j < b.first[k] + |b.all[k].directories|
    ensures var i := j - b.first[k];
      var inside := Inside(b.places[k].path, b.places[k].entries);
      && |inside| == |b.all[k].directories| && b.all[j] == b.all[k].directories[i] && b.places[j] == inside[i]
      && Count(b.places[j].entries) < Count(b.places[k].entries)
  {
    var from, i := b.first[k], j - b.first[k];
    assert b.places[from..from + |b.all[k].directories|][i] == b.places[j];
    InsideSmaller(b.places[k].path, b.places[k].entries, i);
  }

  lemma MirrorsHere(b: Build, base: Path, k: nat, objects: set<DirectoryContent>)
    requires k < |b.all| == |b.places| == |b.first| && Finished(b, base, k) && b.all[k] in objects
    requires forall j :: b.first[k] <= j < b.first[k] + |b.all[k].directories| ==>
      Mirrors(b.all[j], Plain(b.places[j], base), objects)
    ensures Mirrors(b.all[k], Plain(b.places[k], base), objects)
  {
    var place, from := b.places[k], b.first[k];
    var inside := Inside(place.path, place.entries);
    PlainInsideIs(place.path, place.entries, base);
    forall i | 0 <= i < |inside|
      ensures Mirrors(b.all[k].directories[i], PlainInside(place.path, place.entries, base)[i], objects)
    {
      ChildPlace(b, base, k, from + i);
    }
  }
}
