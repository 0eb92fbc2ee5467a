/** Finding the rule files below a root: `_discover` of
    backend/app/detection/loader.py, over a fixed finite file tree. */
module Discovery {
  import opened Wrappers
  import opened Text
  import opened Sorting
  import opened FileTree

  // ---- The suffix rule ----

  /** The position of the last dot, or -1. */
  function LastDot(name: string): (i: int)
    ensures -1 <= i < |name|
    ensures i >= 0 ==> name[i] == '.'
    ensures forall j | i < j < |name| :: name[j] != '.'
  {
    if name == "" then -1
    else if name[|name| - 1] == '.' then |name| - 1
    else LastDot(name[..|name| - 1])
  }

  /** A leading dot does not start a suffix and a trailing dot is none. */
  function Suffix(name: string): string
  {
    var i := LastDot(name);
    if 0 < i < |name| - 1 then name[i..] else ""
  }

  predicate IsYaml(name: string) { Suffix(name) in {".yaml", ".yml"} }

  /** The last dot of a name with a dotted ending starts that ending. */
  lemma LastDotOfEnding(name: string, letters: string)
    requires EndsWith(name, "." + letters) && '.' !in letters
    ensures LastDot(name) == |name| - |letters| - 1
  {
    var dot := |name| - |letters| - 1;
    assert name[dot..] == "." + letters;
    assert name[dot] == name[dot..][0];
    forall j | dot < j < |name| ensures name[j] != '.' {
      assert name[j] == name[dot..][j - dot] == letters[j - dot - 1];
    }
  }

  lemma SuffixOfEnding(name: string, letters: string)
    requires letters != "" && '.' !in letters
    ensures Suffix(name) == "." + letters <==> EndsWith(name, "." + letters) && |name| > |letters| + 1
  {
    if EndsWith(name, "." + letters) { LastDotOfEnding(name, letters); }
  }

  /** A rule file has a non-empty stem followed by one of the two suffixes. */
  lemma YamlNames(name: string)
    ensures IsYaml(name) <==>
      || (EndsWith(name, ".yaml") && |name| > 5)
      || (EndsWith(name, ".yml") && |name| > 4)
  {
    hide Suffix, EndsWith;
    assert "." + "yaml" == ".yaml" && "." + "yml" == ".yml";
    SuffixOfEnding(name, "yaml");
    SuffixOfEnding(name, "yml");
  }

  // ---- The traversal ----

  /** The rule files and the subdirectories among the entries of one directory. */
  datatype Listing = Listing(files: seq<Path>, directories: seq<Entry>)

  function List(path: Path, entries: seq<Entry>): (r: Result<Listing, LoaderError>)
    ensures r.Ok? ==> TotalSize(r.value.directories) <= TotalSize(entries)
    ensures r.Ok? ==> forall d | d in r.value.directories :: d in entries && d.node.Directory?
  {
    if entries == [] then Ok(Listing([], []))
    else
      var e := entries[0];
      if e.node.Link? then Err(FileError(Posix(path + [e.name]), "unsafe_path"))
      else if IsYaml(e.name) && e.node.Special? then Err(FileError(Posix(path + [e.name]), "not_regular_file"))
      else
        match List(path, entries[1..])
        case Err(error) => Err(error)
        case Ok(rest) =>
          if e.node.Directory? then Ok(rest.(directories := [e] + rest.directories))
          else if IsYaml(e.name) then Ok(rest.(files := [path + [e.name]] + rest.files))
          else Ok(rest)
  }

  function Append(files: seq<Path>, r: Result<seq<Path>, LoaderError>): Result<seq<Path>, LoaderError>
  {
    match r case Err(e) => Err(e) case Ok(rest) => Ok(files + rest)
  }

  /** The rule files below a directory: its own first, then each subdirectory's. */
  function Scan(n: Node, path: Path): Result<seq<Path>, LoaderError>
    requires n.Directory?
    decreases Size(n), 0
  {
    SortSize(n.entries);
    match List(path, Sort(n.entries, EntryBefore))
    case Err(e) => Err(e)
    case Ok(listing) => Append(listing.files, ScanAll(listing.directories, path))
  }

  function ScanAll(directories: seq<Entry>, path: Path): Result<seq<Path>, LoaderError>
    requires forall d | d in directories :: d.node.Directory?
    decreases TotalSize(directories), 1
  {
    if directories == [] then Ok([])
    else
      match Scan(directories[0].node, path + [directories[0].name])
      case Err(e) => Err(e)
      case Ok(files) => Append(files, ScanAll(directories[1..], path))
  }

  predicate PathBefore(a: Path, b: Path) { StringLess(Posix(a), Posix(b)) }

  function DiscoveryResult(root: Node): Result<seq<Path>, LoaderError>
    requires root.Directory?
  {
    match Scan(root, []) case Err(e) => Err(e) case Ok(files) => Ok(Sort(files, PathBefore))
  }

  // ---- The work stack ----

  /** Every pending path leads to a directory, without links or parent escapes. */
  ghost predicate Pending(root: Node, pending: seq<Path>)
  {
    forall p | p in pending :: ".." !in p && Walk(root, p).Ok? && Walk(root, p).value.Directory? && ValidTree(Walk(root, p).value)
  }

  /** The work left on the stack, whose top is its end. */
  ghost function Remaining(root: Node, pending: seq<Path>): nat
    requires Pending(root, pending)
  {
    if pending == [] then 0
    else Size(Walk(root, pending[0]).value) + Remaining(root, pending[1..])
  }

  ghost function ScanStack(root: Node, pending: seq<Path>): Result<seq<Path>, LoaderError>
    requires Pending(root, pending)
  {
    if pending == [] then Ok([])
    else
      var top := pending[|pending| - 1];
      match Scan(Walk(root, top).value, top)
      case Err(e) => Err(e)
      case Ok(files) => Append(files, ScanStack(root, pending[..|pending| - 1]))
  }

  /** The paths still to be found below the directories on the stack. */
  ghost function BelowStack(root: Node, pending: seq<Path>): seq<Path>
    requires Pending(root, pending)
  {
    if pending == [] then []
    else
      var top := pending[|pending| - 1];
      Below(Walk(root, top).value, top) + BelowStack(root, pending[..|pending| - 1])
  }

  function Reversed<T>(s: seq<T>): (r: seq<T>)
    ensures |r| == |s| && forall i | 0 <= i < |s| :: r[i] == s[|s| - 1 - i]
  {
    if s == [] then [] else Reversed(s[1..]) + [s[0]]
  }

  lemma EntryWalk(root: Node, path: Path, e: Entry)
    requires Walk(root, path).Ok? && ".." !in path
    requires Walk(root, path).value.Directory? && ValidTree(Walk(root, path).value)
    requires e in Walk(root, path).value.entries
    ensures ".." !in path + [e.name]
    ensures Walk(root, path + [e.name]) == Walk(e.node, []) && ValidTree(e.node)
  {
    ChildOfMember(Walk(root, path).value.entries, e.name);
    WalkOneMore(root, path, e.name);
  }

  lemma AppendTwice(a: seq<Path>, b: seq<Path>, r: Result<seq<Path>, LoaderError>)
    ensures Append(a, Append(b, r)) == Append(a + b, r)
  {
    if r.Ok? { assert a + (b + r.value) == a + b + r.value; }
  }

  lemma AppendNothing(r: Result<seq<Path>, LoaderError>)
    ensures Append([], r) == r
  {
    if r.Ok? { assert [] + r.value == r.value; }
  }

  /** The result of one scan followed by another. */
  function Then(a: Result<seq<Path>, LoaderError>, b: Result<seq<Path>, LoaderError>): Result<seq<Path>, LoaderError>
  {
    match a case Err(e) => Err(e) case Ok(files) => Append(files, b)
  }

  lemma PushedPaths(path: Path, directories: seq<Entry>, pending: seq<Path>)
    ensures pending + Reversed(Under(path, directories)) ==
      if directories == [] then pending
      else pending + Reversed(Under(path, directories[1..])) + [path + [directories[0].name]]
  {
  }

  /** Pushing the subdirectories in reverse makes the stack scan them in order, and
      the work they add is their total size. */
  lemma {:induction false} PushDirectories(root: Node, path: Path, directories: seq<Entry>, pending: seq<Path>)
    requires Pending(root, pending)
    requires Walk(root, path).Ok? && ".." !in path
    requires Walk(root, path).value.Directory? && ValidTree(Walk(root, path).value)
    requires forall d | d in directories :: d in Walk(root, path).value.entries && d.node.Directory?
    ensures var pushed := pending + Reversed(Under(path, directories));
      && Pending(root, pushed)
      && ScanStack(root, pushed) == Then(ScanAll(directories, path), ScanStack(root, pending))
      && Remaining(root, pushed) == Remaining(root, pending) + TotalSize(directories)
  {
    hide *;
    PushedPaths(path, directories, pending);
    ScanAllStep(directories, path);
    if directories == [] {
      AppendNothing(ScanStack(root, pending));
    } else {
      var (d, top) := (directories[0], path + [directories[0].name]);
      PushDirectories(root, path, directories[1..], pending);
      EntryWalk(root, path, d);
      PushOne(root, pending + Reversed(Under(path, directories[1..])), top, d.node);
      ThenTwice(Scan(d.node, top), ScanAll(directories[1..], path), ScanStack(root, pending));
    }
  }

  lemma ScanAllStep(directories: seq<Entry>, path: Path)
    requires forall d | d in directories :: d.node.Directory?
    ensures ScanAll(directories, path) ==
      if directories == [] then Ok([])
      else Then(Scan(directories[0].node, path + [directories[0].name]), ScanAll(directories[1..], path))
    ensures TotalSize(directories) ==
      if directories == [] then 0 else Size(directories[0].node) + TotalSize(directories[1..])
    ensures forall r :: Then(Ok([]), r) == Append([], r)
  {
    hide Scan, Size, Append;
  }

  /** They also add exactly what is below them. */
  lemma {:induction false} PushBelow(root: Node, path: Path, directories: seq<Entry>, pending: seq<Path>)
    requires Pending(root, pending)
    requires Walk(root, path).Ok? && ".." !in path
    requires Walk(root, path).value.Directory? && ValidTree(Walk(root, path).value)
    requires forall d | d in directories :: d in Walk(root, path).value.entries && d.node.Directory?
    ensures Pending(root, pending + Reversed(Under(path, directories)))
    ensures BelowStack(root, pending + Reversed(Under(path, directories)))
         == AllBelow(directories, path) + BelowStack(root, pending)
  {
    hide *;
    PushDirectories(root, path, directories, pending);
    PushedPaths(path, directories, pending);
    if directories == [] {
      AllBelowStep(directories, path);
    } else {
      var (d, top) := (directories[0], path + [directories[0].name]);
      PushBelow(root, path, directories[1..], pending);
      EntryWalk(root, path, d);
      DirectoryWalk(d.node);
      BelowStackPush(root, pending + Reversed(Under(path, directories[1..])), top);
      AllBelowStep(directories, path);
      Associate(Below(d.node, top), AllBelow(directories[1..], path), BelowStack(root, pending));
    }
  }

  lemma AllBelowStep(directories: seq<Entry>, path: Path)
    requires forall d | d in directories :: d.node.Directory?
    ensures AllBelow(directories, path) ==
      if directories == [] then []
      else Below(directories[0].node, path + [directories[0].name]) + AllBelow(directories[1..], path)
  {
    hide Below;
  }

  lemma Associate(a: seq<Path>, b: seq<Path>, c: seq<Path>)
    ensures a + (b + c) == a + b + c
  {
  }

  lemma DirectoryWalk(n: Node)
    requires n.Directory?
    ensures Walk(n, []) == Ok(n)
  {
  }

  lemma BelowStackPush(root: Node, pending: seq<Path>, top: Path)
    requires Pending(root, pending + [top]) && Pending(root, pending)
    ensures Walk(root, top).Ok? && Walk(root, top).value.Directory?
    ensures BelowStack(root, pending + [top]) == Below(Walk(root, top).value, top) + BelowStack(root, pending)
  {
    hide Below, ValidTree, Walk;
    assert (pending + [top])[..|pending|] == pending;
    assert top in pending + [top];
  }

  lemma PushOne(root: Node, pending: seq<Path>, top: Path, n: Node)
    requires Pending(root, pending) && ".." !in top
    requires Walk(root, top) == Walk(n, []) && n.Directory? && ValidTree(n)
    ensures Pending(root, pending + [top])
    ensures ScanStack(root, pending + [top]) == Then(Scan(n, top), ScanStack(root, pending))
    ensures Remaining(root, pending + [top]) == Remaining(root, pending) + Size(n)
  {
    hide Scan, ValidTree;
    assert (pending + [top])[..|pending|] == pending;
    RemainingPush(root, pending, top);
  }

  lemma ThenTwice(a: Result<seq<Path>, LoaderError>, b: Result<seq<Path>, LoaderError>, c: Result<seq<Path>, LoaderError>)
    ensures Then(a, Then(b, c)) == Then(Then(a, b), c)
  {
    if a.Ok? && b.Ok? { AppendTwice(a.value, b.value, c); }
  }

  lemma {:induction false} RemainingPush(root: Node, pending: seq<Path>, top: Path)
    requires Pending(root, pending + [top])
    ensures Pending(root, pending)
    ensures Remaining(root, pending + [top]) == Remaining(root, pending) + Size(Walk(root, top).value)
  {
    assert forall p | p in pending :: p in pending + [top];
    if pending == [] {
      assert (pending + [top])[1..] == [];
    } else {
      assert (pending + [top])[1..] == pending[1..] + [top];
      RemainingPush(root, pending[1..], top);
    }
  }

  /** Earlier findings in front of a later listing. */
  function Extend(files: seq<Path>, directories: seq<Entry>, r: Result<Listing, LoaderError>): Result<Listing, LoaderError>
  {
    match r
    case Err(e) => Err(e)
    case Ok(rest) => Ok(Listing(files + rest.files, directories + rest.directories))
  }

  lemma ExtendNothing(r: Result<Listing, LoaderError>)
    ensures Extend([], [], r) == r
  {
    if r.Ok? { assert [] + r.value.files == r.value.files && [] + r.value.directories == r.value.directories; }
  }

  lemma ExtendFile(files: seq<Path>, directories: seq<Entry>, file: Path, r: Listing)
    ensures Extend(files, directories, Ok(r.(files := [file] + r.files))) == Extend(files + [file], directories, Ok(r))
  {
    assert files + ([file] + r.files) == files + [file] + r.files;
  }

  lemma ExtendDirectory(files: seq<Path>, directories: seq<Entry>, directory: Entry, r: Listing)
    ensures Extend(files, directories, Ok(r.(directories := [directory] + r.directories)))
         == Extend(files, directories + [directory], Ok(r))
  {
    assert directories + ([directory] + r.directories) == directories + [directory] + r.directories;
  }

  lemma {:induction false} ListSubdirectories(path: Path, entries: seq<Entry>)
    requires List(path, entries).Ok?
    ensures List(path, entries).value.directories == Subdirectories(entries)
  {
    hide IsYaml;
    if entries != [] {
      ListSubdirectories(path, entries[1..]);
    }
  }

  /** The inner loop of `_discover`: sort and classify the entries of one directory,
      visiting each entry once and in order until one is refused. */
  method ListDirectory(root: Node, directory: Path, checked: Node)
    returns (r: Result<Listing, LoaderError>, ghost visited: seq<Path>)
    requires ".." !in directory && Walk(root, directory) == Ok(checked)
    requires checked.Directory? && ValidTree(checked)
    ensures r == List(directory, Sort(checked.entries, EntryBefore))
    ensures visited <= Under(directory, Sort(checked.entries, EntryBefore))
    ensures r.Ok? ==> visited == Under(directory, Sort(checked.entries, EntryBefore))
  {
    hide *;
    var entries := Sort(checked.entries, EntryBefore);
    var files: seq<Path>, directories: seq<Entry> := [], [];
    visited := [];
    ExtendNothing(List(directory, entries));
    assert entries[0..] == entries;
    for i := 0 to |entries|
      invariant List(directory, entries) == Extend(files, directories, List(directory, entries[i..]))
      invariant visited == Under(directory, entries)[..i]
    {
      var e := entries[i];
      assert e in entries;
      CheckedEntry(root, directory, e);
      ListTurn(directory, entries, i, files, directories);
      var target := CheckedPath(root, directory + [e.name]);
      visited := visited + [directory + [e.name]];
      if target.Err? { return Err(target.error), visited; }
      if target.value.Directory? {
        directories := directories + [e];
      } else if IsYaml(e.name) {
        if !target.value.Regular? { return Err(FileError(Posix(directory + [e.name]), "not_regular_file")), visited; }
        files := files + [directory + [e.name]];
      }
    }
    ListEnd(directory, entries, files, directories);
    r := Ok(Listing(files, directories));
  }

  /** What one entry adds to the listing, or the failure it causes. */
  lemma ListTurn(path: Path, entries: seq<Entry>, i: nat, files: seq<Path>, directories: seq<Entry>)
    requires i < |entries|
    ensures Under(path, entries)[..i] + [path + [entries[i].name]] == Under(path, entries)[..i + 1]
    ensures
      var (e, rest) := (entries[i], List(path, entries[i + 1..]));
      Extend(files, directories, List(path, entries[i..])) ==
        if e.node.Link? then Err(FileError(Posix(path + [e.name]), "unsafe_path"))
        else if e.node.Directory? then Extend(files, directories + [e], rest)
        else if !IsYaml(e.name) then Extend(files, directories, rest)
        else if e.node.Special? then Err(FileError(Posix(path + [e.name]), "not_regular_file"))
        else Extend(files + [path + [e.name]], directories, rest)
  {
    hide IsYaml, Posix, Under;
    var (e, rest) := (entries[i], List(path, entries[i + 1..]));
    assert entries[i..][0] == e && entries[i..][1..] == entries[i + 1..];
    if rest.Ok? {
      ExtendDirectory(files, directories, e, rest.value);
      ExtendFile(files, directories, path + [e.name], rest.value);
    }
  }

  lemma ListEnd(path: Path, entries: seq<Entry>, files: seq<Path>, directories: seq<Entry>)
    ensures Extend(files, directories, List(path, entries[|entries|..])) == Ok(Listing(files, directories))
    ensures Under(path, entries)[..|entries|] == Under(path, entries)
  {
    assert files + [] == files && directories + [] == directories;
  }

  /** The check of an entry of a checked directory only asks whether it is a link. */
  lemma CheckedEntry(root: Node, directory: Path, e: Entry)
    requires ".." !in directory && Walk(root, directory).Ok?
    requires Walk(root, directory).value.Directory? && ValidTree(Walk(root, directory).value)
    requires e in Walk(root, directory).value.entries
    ensures CheckPath(root, directory + [e.name]) ==
      if e.node.Link? then Err(FileError(Posix(directory + [e.name]), "unsafe_path")) else Ok(e.node)
  {
    EntryWalk(root, directory, e);
  }

  lemma TopIsDirectory(root: Node, pending: seq<Path>, top: Path)
    requires Pending(root, pending + [top])
    ensures top in pending + [top] && ".." !in top && Walk(root, top).Ok? && CheckPath(root, top) == Ok(Walk(root, top).value)
    ensures Walk(root, top).value.Directory? && ValidTree(Walk(root, top).value)
  {
    assert top in pending + [top];
  }

  /** One turn of the outer loop: the top directory gives way to its listing, the
      remaining scan is unchanged, and the work on the stack shrinks. */
  lemma StackTurn(root: Node, pending: seq<Path>, top: Path)
    requires Pending(root, pending + [top])
    ensures Pending(root, pending)
    ensures top in pending + [top]
    ensures
      var entries := Sort(Walk(root, top).value.entries, EntryBefore);
      var r := List(top, entries);
      && (r.Err? ==> ScanStack(root, pending + [top]) == Err(r.error))
      && (r.Ok? ==>
        var pushed := pending + Reversed(Under(top, r.value.directories));
        && Pending(root, pushed)
        && ScanStack(root, pending + [top]) == Append(r.value.files, ScanStack(root, pushed))
        && Remaining(root, pushed) < Remaining(root, pending + [top]))
  {
    hide Walk, ValidTree, ScanAll;
    assert top in pending + [top];
    var n := Walk(root, top).value;
    RemainingPush(root, pending, top);
    assert (pending + [top])[..|pending|] == pending;
    SortSize(n.entries);
    var entries := Sort(n.entries, EntryBefore);
    match List(top, entries)
    case Err(_) =>
    case Ok(listing) =>
      PushDirectories(root, top, listing.directories, pending);
      ThenTwice(Ok(listing.files), ScanAll(listing.directories, top), ScanStack(root, pending));
  }

  /** That turn visits the entries of the directory, which come first of all that is
      left to visit, and leaves the rest on the stack. */
  lemma VisitTurn(root: Node, pending: seq<Path>, top: Path)
    requires Pending(root, pending + [top]) && Pending(root, pending)
    ensures top in pending + [top]
    ensures
      var entries := Sort(Walk(root, top).value.entries, EntryBefore);
      && Under(top, entries) <= BelowStack(root, pending + [top])
      && (List(top, entries).Ok? ==>
        var pushed := pending + Reversed(Under(top, List(top, entries).value.directories));
        && Pending(root, pushed)
        && BelowStack(root, pending + [top]) == Under(top, entries) + BelowStack(root, pushed))
  {
    hide *;
    TopIsDirectory(root, pending, top);
    var n := Walk(root, top).value;
    var entries := Sort(n.entries, EntryBefore);
    BelowStackPush(root, pending, top);
    PushBelow(root, top, Subdirectories(entries), pending);
    BelowStep(n, top);
    Associate(Under(top, entries), AllBelow(Subdirectories(entries), top), BelowStack(root, pending));
    PrefixOfConcat(Under(top, entries), AllBelow(Subdirectories(entries), top) + BelowStack(root, pending));
    if List(top, entries).Ok? { ListSubdirectories(top, entries); }
  }

  lemma BelowStep(n: Node, path: Path)
    requires n.Directory?
    ensures
      var entries := Sort(n.entries, EntryBefore);
      Below(n, path) == Under(path, entries) + AllBelow(Subdirectories(entries), path)
  {
    hide AllBelow, Under, Subdirectories, Sort;
  }

  lemma PrefixStays(a: seq<Path>, b: seq<Path>, c: seq<Path>)
    requires b <= c
    ensures a + b <= a + c
  {
  }

  lemma PrefixOfConcat(a: seq<Path>, b: seq<Path>)
    ensures a <= a + b
  {
  }

  lemma StackEnd(root: Node)
    ensures Pending(root, []) && ScanStack(root, []) == Ok([]) && BelowStack(root, []) == []
  {
  }

  lemma StackStart(root: Node)
    requires ValidTree(root) && root.Directory?
    ensures Pending(root, [[]]) && ScanStack(root, [[]]) == Scan(root, []) && BelowStack(root, [[]]) == Below(root, [])
  {
    var start: seq<Path> := [[]];
    assert start[..0] == [];
    if Scan(root, []).Ok? { assert Scan(root, []).value + [] == Scan(root, []).value; }
  }

  /** What has been visited is the beginning of all that lies below the root. */
  lemma VisitedOnce(root: Node, visited: seq<Path>)
    requires ValidTree(root) && root.Directory?
    requires visited <= Below(root, [])
    ensures NoRepeat(visited)
    ensures forall p | p in visited :: p != [] && Lookup(root, p).Some?
    ensures visited == Below(root, []) ==> forall p :: p in visited <==> p != [] && Lookup(root, p).Some?
  {
    hide Below, ValidTree, Lookup;
    BelowExact(root, []);
    forall p: Path ensures p in Below(root, []) <==> p != [] && Lookup(root, p).Some? {
      assert p[0..] == p && p[..0] == [];
    }
    assert forall p | p in visited :: p in Below(root, []);
  }

  /** `_discover`: an explicit stack of directories, emptied in depth-first order.
      `visited` are the entries that were checked: none is checked twice, and on
      success everything below the root was. */
  method Discover(root: Node) returns (r: Result<seq<Path>, LoaderError>, ghost visited: seq<Path>)
    requires ValidTree(root) && root.Directory?
    ensures r == DiscoveryResult(root)
    ensures NoRepeat(visited)
    ensures forall p | p in visited :: p != [] && Lookup(root, p).Some?
    ensures r.Ok? ==> forall p :: p in visited <==> p != [] && Lookup(root, p).Some?
  {
    hide Scan, Walk, ValidTree, List, Remaining, Pending, Below, Lookup, ScanStack, BelowStack, NoRepeat, Under, Reversed,
         Sort, CheckPath;
    StackEnd(root);
    var files: seq<Path> := [];
    var pending: seq<Path> := [[]];
    visited := [];
    StackStart(root);
    AppendNothing(ScanStack(root, pending));
    while pending != []
      invariant Pending(root, pending)
      invariant Scan(root, []) == Append(files, ScanStack(root, pending))
      invariant Below(root, []) == visited + BelowStack(root, pending)
      decreases if Pending(root, pending) then Remaining(root, pending) else 0
    {
      var directory := pending[|pending| - 1];
      assert pending == pending[..|pending| - 1] + [directory];
      pending := pending[..|pending| - 1];
      StackTurn(root, pending, directory);
      VisitTurn(root, pending, directory);
      TopIsDirectory(root, pending, directory);
      var checked := CheckedPath(root, directory);  // passes again: it passed as an entry
      ghost var before := visited;
      var listing, entries := ListDirectory(root, directory, checked.value);
      visited := visited + entries;
      if listing.Err? {
        PrefixStays(before, entries, BelowStack(root, pending + [directory]));
        VisitedOnce(root, visited);
        return Err(listing.error), visited;
      }
      pending := pending + Reversed(Under(directory, listing.value.directories));
      AppendTwice(files, listing.value.files, ScanStack(root, pending));
      files := files + listing.value.files;
      Associate(before, entries, BelowStack(root, pending));
    }
    assert files + [] == files && visited + [] == visited;
    VisitedOnce(root, visited);
    r := Ok(Sort(files, PathBefore));
  }
}
