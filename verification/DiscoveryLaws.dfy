/** Discovery is exact and blind to enumeration order. */
module DiscoveryLaws {
  import opened Wrappers
  import opened Text
  import opened Sorting
  import opened FileTree
  import opened Discovery

  /** A regular file with a rule-file name stands at the path. */
  predicate IsRuleFile(n: Node, p: Path)
  {
    p != [] && IsYaml(p[|p| - 1]) && Lookup(n, p).Some? && Lookup(n, p).value.Regular?
  }

  /** What makes discovery fail: a link of any name, or a rule-file name on
      something that is neither a directory nor a regular file. */
  predicate IsHazard(n: Node, p: Path)
  {
    && Lookup(n, p).Some?
    && (Lookup(n, p).value.Link? || (p != [] && IsYaml(p[|p| - 1]) && Lookup(n, p).value.Special?))
  }

  predicate HazardousEntry(e: Entry) { e.node.Link? || (IsYaml(e.name) && e.node.Special?) }

  // ---- One directory ----

  predicate IsListed(q: Path, e: Entry, path: Path)
  {
    e.node.Regular? && IsYaml(e.name) && q == path + [e.name]
  }

  lemma {:induction false} ListSucceeds(path: Path, entries: seq<Entry>)
    ensures List(path, entries).Ok? <==> forall i | 0 <= i < |entries| :: !HazardousEntry(entries[i])
  {
    hide IsYaml;
    if entries != [] {
      ListSucceeds(path, entries[1..]);
      assert forall i | 0 < i < |entries| :: entries[i] == entries[1..][i - 1];
      assert forall i | 0 <= i < |entries[1..]| :: entries[1..][i] == entries[i + 1];
    }
  }

  lemma {:induction false} ListFiles(path: Path, entries: seq<Entry>, q: Path)
    requires List(path, entries).Ok?
    ensures q in List(path, entries).value.files <==> exists e | e in entries :: IsListed(q, e, path)
  {
    hide IsYaml;
    if entries != [] {
      ListFiles(path, entries[1..], q);
      assert entries[0] in entries && forall e | e in entries[1..] :: e in entries;
      var rest := List(path, entries[1..]).value.files;
      if q in rest {
        var e :| e in entries[1..] && IsListed(q, e, path);
        assert e in entries;
      } else if q in List(path, entries).value.files {
        assert IsListed(q, entries[0], path);
      }
      if e :| e in entries && IsListed(q, e, path) {
        assert e == entries[0] || e in entries[1..];
      }
    }
  }

  lemma {:induction false} ListDirectories(path: Path, entries: seq<Entry>, d: Entry)
    requires List(path, entries).Ok?
    ensures d in List(path, entries).value.directories <==> d in entries && d.node.Directory?
  {
    hide IsYaml;
    if entries != [] {
      ListDirectories(path, entries[1..], d);
    }
  }

  lemma {:induction false} ListDistinct(path: Path, entries: seq<Entry>)
    requires DistinctNames(entries) && List(path, entries).Ok?
    ensures NoRepeat(List(path, entries).value.files) && DistinctNames(List(path, entries).value.directories)
  {
    hide IsYaml;
    if entries != [] {
      TailNamesDiffer(entries);
      ListDistinct(path, entries[1..]);
      var (e, rest) := (entries[0], List(path, entries[1..]).value);
      forall q | q in rest.files ensures q != path + [e.name] {
        ListFiles(path, entries[1..], q);
        var other :| other in entries[1..] && IsListed(q, other, path);
        assert q[|path|] == other.name;
      }
      forall d | d in rest.directories ensures d.name != e.name {
        ListDirectories(path, entries[1..], d);
      }
      NoRepeatPrepend(path + [e.name], rest.files);
      DistinctPrepend(e, rest.directories);
    }
  }

  lemma NoRepeatPrepend(q: Path, paths: seq<Path>)
    requires NoRepeat(paths) && q !in paths
    ensures NoRepeat([q] + paths)
  {
    assert forall i | 0 < i < |[q] + paths| :: ([q] + paths)[i] == paths[i - 1] && paths[i - 1] in paths;
  }

  // ---- A whole tree ----

  lemma LookupEntry(n: Node, e: Entry, p: Path)
    requires n.Directory? && DistinctNames(n.entries) && e in n.entries
    ensures Lookup(n, [e.name] + p) == Lookup(e.node, p)
  {
    ChildOfMember(n.entries, e.name);
    assert ([e.name] + p)[1..] == p;
  }

  predicate OwnRuleFile(e: Entry, p: Path) { e.node.Regular? && IsYaml(e.name) && p == [e.name] }

  predicate DeeperRuleFile(d: Entry, p: Path)
  {
    d.node.Directory? && p != [] && p[0] == d.name && IsRuleFile(d.node, p[1..])
  }

  /** Below a directory, rule files are its own and those of its subdirectories. */
  lemma RuleFileStep(n: Node, p: Path)
    requires n.Directory? && ValidTree(n)
    ensures IsRuleFile(n, p) <==>
      || (exists e | e in n.entries :: OwnRuleFile(e, p))
      || (exists d | d in n.entries :: DeeperRuleFile(d, p))
  {
    hide IsYaml;
    if p != [] {
      ChildOfMember(n.entries, p[0]);
      assert p == [p[0]] + p[1..];
      if Child(n, p[0]).Some? {
        var e := Entry(p[0], Child(n, p[0]).value);
        assert e in n.entries;
        LookupEntry(n, e, p[1..]);
        if !e.node.Directory? && |p| > 1 {
          assert Lookup(e.node, p[1..]).None?;
        }
      }
    }
  }

  lemma HazardStep(n: Node)
    requires n.Directory? && ValidTree(n)
    ensures (exists p :: IsHazard(n, p)) <==>
      || (exists e | e in n.entries :: HazardousEntry(e))
      || (exists d | d in n.entries :: d.node.Directory? && exists p :: IsHazard(d.node, p))
  {
    hide IsYaml;
    if p :| IsHazard(n, p) {
      if p != [] {
        ChildOfMember(n.entries, p[0]);
        var e := Entry(p[0], Child(n, p[0]).value);
        assert p == [p[0]] + p[1..];
        LookupEntry(n, e, p[1..]);
        if |p| > 1 { assert IsHazard(e.node, p[1..]); }
      }
    }
    forall e | e in n.entries && HazardousEntry(e) ensures IsHazard(n, [e.name]) {
      LookupEntry(n, e, []);
      assert [e.name] + [] == [e.name];
    }
    forall d, p | d in n.entries && d.node.Directory? && IsHazard(d.node, p) ensures IsHazard(n, [d.name] + p) {
      LookupEntry(n, d, p);
    }
  }

  ghost predicate Safe(n: Node) { forall p :: !IsHazard(n, p) }

  /** The files found below a directory at `path`. */
  ghost predicate FindsExactly(files: seq<Path>, n: Node, path: Path)
  {
    && (forall q :: q in files <==> path <= q && IsRuleFile(n, q[|path|..]))
    && NoRepeat(files)
  }

  lemma {:induction false} ScanExact(n: Node, path: Path)
    requires n.Directory? && ValidTree(n)
    ensures Scan(n, path).Ok? <==> Safe(n)
    ensures Scan(n, path).Ok? ==> FindsExactly(Scan(n, path).value, n, path)
    decreases Size(n), 0
  {
    hide IsYaml, List, FindsExactly, FindsBelow, IsHazard;
    SortSize(n.entries);
    SortedNames(n.entries);
    var entries := Sort(n.entries, EntryBefore);
    ListSucceeds(path, entries);
    HazardStep(n);
    assert (forall e | e in n.entries :: !HazardousEntry(e)) <==> forall i | 0 <= i < |entries| :: !HazardousEntry(entries[i]);
    if List(path, entries).Ok? {
      var listing := List(path, entries).value;
      forall d ensures d in listing.directories <==> d in n.entries && d.node.Directory? {
        ListDirectories(path, entries, d);
      }
      ListDistinct(path, entries);
      ScanAllExact(listing.directories, path);
      if Scan(n, path).Ok? {
        FilesTogether(n, path, listing, ScanAll(listing.directories, path).value);
      }
    }
  }

  /** The files found below some directories that lie at `path`. */
  ghost predicate FindsBelow(files: seq<Path>, directories: seq<Entry>, path: Path)
  {
    && (forall q :: q in files <==> exists d | d in directories :: FoundIn(q, d, path))
    && NoRepeat(files)
  }

  predicate FoundIn(q: Path, d: Entry, path: Path)
  {
    path + [d.name] <= q && IsRuleFile(d.node, q[|path| + 1..])
  }

  lemma OwnFile(n: Node, path: Path, listing: Listing, p: Path)
    requires n.Directory? && List(path, Sort(n.entries, EntryBefore)) == Ok(listing)
    ensures path + p in listing.files <==> exists e | e in n.entries :: OwnRuleFile(e, p)
  {
    hide IsYaml, List;
    ListFiles(path, Sort(n.entries, EntryBefore), path + p);
    forall e: Entry ensures IsListed(path + p, e, path) <==> OwnRuleFile(e, p) {
      assert (path + p)[|path|..] == p && (path + [e.name])[|path|..] == [e.name];
    }
    if e :| e in n.entries && OwnRuleFile(e, p) {
      assert IsListed(path + p, e, path) && e in Sort(n.entries, EntryBefore);
    }
  }

  lemma DeepFile(n: Node, path: Path, listing: Listing, below: seq<Path>, p: Path)
    requires n.Directory? && List(path, Sort(n.entries, EntryBefore)) == Ok(listing)
    requires FindsBelow(below, listing.directories, path)
    ensures path + p in below <==> exists d | d in n.entries :: DeeperRuleFile(d, p)
  {
    hide IsYaml, List, IsRuleFile, FoundIn, DeeperRuleFile;
    forall d ensures d in listing.directories <==> d in n.entries && d.node.Directory? {
      ListDirectories(path, Sort(n.entries, EntryBefore), d);
    }
    forall d: Entry ensures d.node.Directory? && FoundIn(path + p, d, path) <==> DeeperRuleFile(d, p) {
      FoundAt(path, p, d);
    }
    if d :| d in n.entries && DeeperRuleFile(d, p) {
      assert FoundIn(path + p, d, path) && d in listing.directories;
    }
  }

  lemma FileTogether(n: Node, path: Path, listing: Listing, below: seq<Path>, p: Path)
    requires n.Directory? && ValidTree(n)
    requires List(path, Sort(n.entries, EntryBefore)) == Ok(listing)
    requires FindsBelow(below, listing.directories, path)
    ensures path + p in listing.files + below <==> IsRuleFile(n, p)
  {
    hide IsYaml, List, IsRuleFile, FindsBelow, OwnRuleFile, DeeperRuleFile;
    OwnFile(n, path, listing, p);
    DeepFile(n, path, listing, below, p);
    RuleFileStep(n, p);
  }

  lemma FoundAt(path: Path, p: Path, d: Entry)
    ensures d.node.Directory? && FoundIn(path + p, d, path) <==> DeeperRuleFile(d, p)
  {
    if p != [] {
      assert (path + p)[|path|] == p[0] && (path + [d.name])[|path|] == d.name;
      assert (path + p)[|path| + 1..] == p[1..];
    }
  }

  lemma FilesTogether(n: Node, path: Path, listing: Listing, below: seq<Path>)
    requires n.Directory? && ValidTree(n)
    requires List(path, Sort(n.entries, EntryBefore)) == Ok(listing)
    requires FindsBelow(below, listing.directories, path)
    ensures FindsExactly(listing.files + below, n, path)
  {
    SortedNames(n.entries);
    hide *;
    var entries := Sort(n.entries, EntryBefore);
    ListDistinct(path, entries);
    FindsBelowDistinct(below, listing.directories, path);
    forall q ensures q in listing.files + below <==> path <= q && IsRuleFile(n, q[|path|..]) {
      if path <= q {
        assert q == path + q[|path|..];
        FileTogether(n, path, listing, below, q[|path|..]);
      } else {
        if q in listing.files { ListedBelow(path, entries, q); }
        NotBelow(listing.directories, path, below, q);
      }
    }
    forall q | q in below ensures q !in listing.files {
      if q in listing.files { ListedBelow(path, entries, q); }
      FoundBelow(listing.directories, path, below, q);
    }
    NoRepeatConcat(listing.files, below);
    FoundExactly(listing.files + below, n, path);
  }

  lemma FoundExactly(files: seq<Path>, n: Node, path: Path)
    requires forall q :: q in files <==> path <= q && IsRuleFile(n, q[|path|..])
    requires NoRepeat(files)
    ensures FindsExactly(files, n, path)
  {
    hide IsRuleFile;
  }

  lemma FindsBelowDistinct(below: seq<Path>, directories: seq<Entry>, path: Path)
    requires FindsBelow(below, directories, path)
    ensures NoRepeat(below)
  {
  }

  lemma ListedBelow(path: Path, entries: seq<Entry>, q: Path)
    requires List(path, entries).Ok? && q in List(path, entries).value.files
    ensures path <= q && |q| == |path| + 1
  {
    hide List, IsYaml;
    ListFiles(path, entries, q);
  }

  lemma NotBelow(directories: seq<Entry>, path: Path, below: seq<Path>, q: Path)
    requires FindsBelow(below, directories, path) && !(path <= q)
    ensures q !in below
  {
    hide IsRuleFile;
    assert forall d: Entry :: !FoundIn(q, d, path);
  }

  lemma FoundBelow(directories: seq<Entry>, path: Path, below: seq<Path>, q: Path)
    requires FindsBelow(below, directories, path) && q in below
    ensures |q| > |path| + 1
  {
    hide IsRuleFile;
    var d :| d in directories && FoundIn(q, d, path);
    RuleFileBelow(d.node, q[|path| + 1..]);
  }

  lemma RuleFileBelow(n: Node, p: Path)
    requires IsRuleFile(n, p)
    ensures p != []
  {
  }

  lemma {:induction false} ScanAllExact(directories: seq<Entry>, path: Path)
    requires DistinctNames(directories)
    requires forall d | d in directories :: d.node.Directory? && ValidTree(d.node)
    ensures ScanAll(directories, path).Ok? <==> forall d | d in directories :: Safe(d.node)
    ensures ScanAll(directories, path).Ok? ==> FindsBelow(ScanAll(directories, path).value, directories, path)
    decreases TotalSize(directories), 1
  {
    hide IsYaml, IsRuleFile, Safe, ValidTree, FindsBelow;
    if directories == [] {
      assert FindsBelow([], directories, path) by { NothingBelow(path); }
    } else {
      var d := directories[0];
      TailNamesDiffer(directories);
      ScanExact(d.node, path + [d.name]);
      ScanAllExact(directories[1..], path);
      assert forall x :: x in directories <==> x == d || x in directories[1..];
      if ScanAll(directories, path).Ok? {
        BelowTogether(directories, path, Scan(d.node, path + [d.name]).value, ScanAll(directories[1..], path).value);
      }
    }
  }

  lemma NothingBelow(path: Path)
    ensures FindsBelow([], [], path)
  {
  }

  lemma BelowTogether(directories: seq<Entry>, path: Path, first: seq<Path>, rest: seq<Path>)
    requires directories != [] && DistinctNames(directories)
    requires FindsExactly(first, directories[0].node, path + [directories[0].name])
    requires FindsBelow(rest, directories[1..], path)
    ensures FindsBelow(first + rest, directories, path)
  {
    hide IsRuleFile;
    var d := directories[0];
    TailNamesDiffer(directories);
    assert forall x :: x in directories <==> x == d || x in directories[1..];
    forall q ensures q in first <==> FoundIn(q, d, path) { }
    forall q | q in rest ensures q !in first {
      var e :| e in directories[1..] && FoundIn(q, e, path);
      if q in first { SameDirectory(q, d, e, path); }
    }
    forall q ensures q in first + rest <==> exists x | x in directories :: FoundIn(q, x, path) { }
    NoRepeatConcat(first, rest);
  }

  lemma SameDirectory(q: Path, d: Entry, e: Entry, path: Path)
    requires FoundIn(q, d, path) && FoundIn(q, e, path)
    ensures d.name == e.name
  {
    assert q[|path|] == (path + [d.name])[|path|];
    assert q[|path|] == (path + [e.name])[|path|];
  }

  // ---- Path order ----

  lemma {:induction false} FoundPathsAreValid(n: Node, p: Path)
    requires ValidTree(n) && Lookup(n, p).Some?
    ensures forall part | part in p :: ValidName(part)
    decreases |p|
  {
    if p != [] {
      ChildOfMember(n.entries, p[0]);
      FoundPathsAreValid(Child(n, p[0]).value, p[1..]);
    }
  }

  lemma PosixInjective(a: Path, b: Path)
    requires a != [] && b != [] && Posix(a) == Posix(b)
    requires forall part | part in a + b :: ValidName(part)
    ensures a == b
  {
    assert forall part | part in a :: part in a + b;
    assert forall part | part in b :: part in a + b;
    SplitOfJoin(a, '/');
    SplitOfJoin(b, '/');
  }

  lemma PathOrder()
    ensures KeyOrder(PathBefore)
  {
    StringOrder();
  }

  lemma RuleFilePathsDiffer(n: Node, files: seq<Path>)
    requires ValidTree(n) && NoRepeat(files) && forall p | p in files :: IsRuleFile(n, p)
    ensures KeysDiffer(files, PathBefore)
  {
    hide IsYaml;
    forall i, j | 0 <= i < |files| && 0 <= j < |files| && i != j
      ensures PathBefore(files[i], files[j]) || PathBefore(files[j], files[i])
    {
      assert IsRuleFile(n, files[i]) && IsRuleFile(n, files[j]);
      FoundPathsAreValid(n, files[i]);
      FoundPathsAreValid(n, files[j]);
      if Posix(files[i]) == Posix(files[j]) {
        PosixInjective(files[i], files[j]);
      }
      StringLessTotal(Posix(files[i]), Posix(files[j]));
    }
  }

  /** Discovery succeeds iff nothing hazardous lies anywhere in the tree, and then
      returns exactly the rule files, once each, in relative-path order. */
  lemma DiscoveryExact(root: Node)
    requires root.Directory? && ValidTree(root)
    ensures DiscoveryResult(root).Ok? <==> forall p :: !IsHazard(root, p)
    ensures DiscoveryResult(root).Ok? ==>
      && StrictlyOrdered(DiscoveryResult(root).value, PathBefore)
      && forall p :: p in DiscoveryResult(root).value <==> IsRuleFile(root, p)
  {
    hide IsRuleFile, IsHazard, Scan;
    ScanExact(root, []);
    if Scan(root, []).Ok? {
      var files := Scan(root, []).value;
      forall p ensures p in files <==> IsRuleFile(root, p) { assert p[0..] == p; }
      RuleFilePathsDiffer(root, files);
      PathOrder();
      SortStrict(files, PathBefore);
    }
  }

  // ---- Which failure is reported ----

  /** What the failure at a hazard is called. */
  function HazardError(root: Node, p: Path): LoaderError
  {
    FileError(Posix(p), if Lookup(root, p) == Some(Link) then "unsafe_path" else "not_regular_file")
  }

  ghost predicate FirstHazard(root: Node, paths: seq<Path>, k: int)
  {
    && 0 <= k < |paths| && IsHazard(root, paths[k])
    && forall j | 0 <= j < k :: !IsHazard(root, paths[j])
  }

  /** A failure is that of the first hazard along the paths, and none means no hazard. */
  ghost predicate ReportsFirst(root: Node, paths: seq<Path>, failure: Option<LoaderError>)
  {
    match failure
    case None => forall p | p in paths :: !IsHazard(root, p)
    case Some(e) => exists k :: FirstHazard(root, paths, k) && e == HazardError(root, paths[k])
  }

  function FailureOf<T>(r: Result<T, LoaderError>): Option<LoaderError>
  {
    match r case Ok(_) => None case Err(e) => Some(e)
  }

  lemma ReportsConcat(root: Node, a: seq<Path>, b: seq<Path>, first: Option<LoaderError>, second: Option<LoaderError>)
    requires ReportsFirst(root, a, first) && (first.None? ==> ReportsFirst(root, b, second))
    ensures ReportsFirst(root, a + b, if first.Some? then first else second)
  {
    hide IsHazard, HazardError;
    if first.Some? {
      var k :| FirstHazard(root, a, k) && first.value == HazardError(root, a[k]);
      assert (a + b)[k] == a[k] && FirstHazard(root, a + b, k);
    } else if second.Some? {
      var k :| FirstHazard(root, b, k) && second.value == HazardError(root, b[k]);
      forall j | 0 <= j < |a| + k ensures !IsHazard(root, (a + b)[j]) {
        assert j < |a| ==> a[j] in a;
      }
      assert (a + b)[|a| + k] == b[k] && FirstHazard(root, a + b, |a| + k);
    }
  }

  lemma {:induction false} LookupOneMore(root: Node, path: Path, e: Entry)
    requires Lookup(root, path).Some? && Lookup(root, path).value.Directory?
    requires DistinctNames(Lookup(root, path).value.entries) && e in Lookup(root, path).value.entries
    ensures Lookup(root, path + [e.name]) == Some(e.node)
    ensures IsHazard(root, path + [e.name]) <==> HazardousEntry(e)
    decreases |path|
  {
    hide IsYaml;
    if path == [] {
      ChildOfMember(root.entries, e.name);
      assert path + [e.name] == [e.name] && [e.name][1..] == [];
    } else {
      assert (path + [e.name])[1..] == path[1..] + [e.name];
      LookupOneMore(Child(root, path[0]).value, path[1..], e);
    }
  }

  lemma {:induction false} ListReports(root: Node, path: Path, n: Node, entries: seq<Entry>)
    requires Lookup(root, path) == Some(n) && n.Directory? && DistinctNames(n.entries)
    requires forall e | e in entries :: e in n.entries
    ensures ReportsFirst(root, Under(path, entries), FailureOf(List(path, entries)))
  {
    hide IsYaml, IsHazard, Lookup, ReportsFirst;
    if entries == [] {
      NothingReported(root);
    } else {
      LookupOneMore(root, path, entries[0]);
      ListReports(root, path, n, entries[1..]);
      EntryReports(root, path, entries[0]);
      ReportsConcat(root, [path + [entries[0].name]], Under(path, entries[1..]),
        EntryFailure(path, entries[0]), FailureOf(List(path, entries[1..])));
    }
  }

  lemma NothingReported(root: Node)
    ensures ReportsFirst(root, [], None)
  {
  }

  /** The failure of one entry by itself. */
  function EntryFailure(path: Path, e: Entry): Option<LoaderError>
  {
    if e.node.Link? then Some(FileError(Posix(path + [e.name]), "unsafe_path"))
    else if IsYaml(e.name) && e.node.Special? then Some(FileError(Posix(path + [e.name]), "not_regular_file"))
    else None
  }

  lemma EntryReports(root: Node, path: Path, e: Entry)
    requires Lookup(root, path + [e.name]) == Some(e.node)
    requires IsHazard(root, path + [e.name]) <==> HazardousEntry(e)
    ensures ReportsFirst(root, [path + [e.name]], EntryFailure(path, e))
  {
    hide IsYaml, IsHazard, Lookup, Posix;
    if EntryFailure(path, e).Some? {
      assert FirstHazard(root, [path + [e.name]], 0);
    }
  }

  lemma {:induction false} ScanReports(root: Node, n: Node, path: Path)
    requires n.Directory? && ValidTree(n) && Lookup(root, path) == Some(n)
    ensures ReportsFirst(root, Below(n, path), FailureOf(Scan(n, path)))
    decreases Size(n), 0
  {
    hide IsYaml, IsHazard, Lookup, ReportsFirst, List;
    SortSize(n.entries);
    var entries := Sort(n.entries, EntryBefore);
    ListReports(root, path, n, entries);
    ScanAllReports(root, n, Subdirectories(entries), path);
    ReportsConcat(root, Under(path, entries), AllBelow(Subdirectories(entries), path),
      FailureOf(List(path, entries)), FailureOf(ScanAll(Subdirectories(entries), path)));
    if List(path, entries).Ok? { ListSubdirectories(path, entries); }
  }

  lemma {:induction false} ScanAllReports(root: Node, n: Node, directories: seq<Entry>, path: Path)
    requires n.Directory? && ValidTree(n) && Lookup(root, path) == Some(n)
    requires forall d | d in directories :: d in n.entries && d.node.Directory?
    ensures ReportsFirst(root, AllBelow(directories, path), FailureOf(ScanAll(directories, path)))
    decreases TotalSize(directories), 1
  {
    hide IsYaml, IsHazard, Lookup, ReportsFirst;
    if directories == [] {
      NothingReported(root);
    } else {
      var d := directories[0];
      LookupOneMore(root, path, d);
      ScanReports(root, d.node, path + [d.name]);
      ScanAllReports(root, n, directories[1..], path);
      ReportsConcat(root, Below(d.node, path + [d.name]), AllBelow(directories[1..], path),
        FailureOf(Scan(d.node, path + [d.name])), FailureOf(ScanAll(directories[1..], path)));
    }
  }

  /** A failing discovery reports the first hazard in depth-first order, a directory's
      own entries by name before what is below its subdirectories. */
  lemma DiscoveryErrorIsFirst(root: Node) returns (k: nat)
    requires root.Directory? && ValidTree(root) && DiscoveryResult(root).Err?
    ensures FirstHazard(root, Below(root, []), k)
    ensures DiscoveryResult(root) == Err(HazardError(root, Below(root, [])[k]))
  {
    hide Scan, Below, IsHazard, HazardError;
    ScanReports(root, root, []);
    k :| FirstHazard(root, Below(root, []), k) && DiscoveryResult(root).error == HazardError(root, Below(root, [])[k]);
  }

  // ---- Enumeration order ----

  predicate SameKind(a: Option<Node>, b: Option<Node>)
  {
    match (a, b)
    case (Some(x), Some(y)) => if x.Directory? then y.Directory? else x == y
    case (None, None) => true
    case _ => false
  }

  /** The same things stand at the same paths; directories may be enumerated in
      different orders. */
  ghost predicate SameTree(a: Node, b: Node)
  {
    forall p :: SameKind(Lookup(a, p), Lookup(b, p))
  }

  ghost predicate Alike(a: seq<Entry>, b: seq<Entry>)
  {
    && |a| == |b|
    && forall i | 0 <= i < |a| :: a[i].name == b[i].name && SameTree(a[i].node, b[i].node)
  }

  lemma SameTreeRoot(a: Node, b: Node)
    requires SameTree(a, b)
    ensures if a.Directory? then b.Directory? else a == b
  {
    assert SameKind(Lookup(a, []), Lookup(b, []));
  }

  lemma LookupStep(n: Node, name: string, p: Path)
    ensures Lookup(n, [name] + p) == match Child(n, name) case None => None case Some(c) => Lookup(c, p)
  {
    assert ([name] + p)[1..] == p;
  }

  lemma SameTreeChild(a: Node, b: Node, name: string)
    requires SameTree(a, b) && a.Directory? && b.Directory?
    ensures Child(a, name).Some? <==> Child(b, name).Some?
    ensures Child(a, name).Some? ==> SameTree(Child(a, name).value, Child(b, name).value)
  {
    assert SameKind(Lookup(a, [name] + []), Lookup(b, [name] + []));
    LookupStep(a, name, []);
    LookupStep(b, name, []);
    if Child(a, name).Some? {
      forall p ensures SameKind(Lookup(Child(a, name).value, p), Lookup(Child(b, name).value, p)) {
        LookupStep(a, name, p);
        LookupStep(b, name, p);
        assert SameKind(Lookup(a, [name] + p), Lookup(b, [name] + p));
      }
    }
  }

  function Names(entries: seq<Entry>): (names: seq<string>)
    ensures |names| == |entries| && forall i | 0 <= i < |entries| :: names[i] == entries[i].name
  {
    if entries == [] then [] else [entries[0].name] + Names(entries[1..])
  }

  predicate NameBefore(a: string, b: string) { StringLess(a, b) }

  lemma NameOfChild(n: Node, name: string)
    requires n.Directory? && DistinctNames(n.entries)
    ensures name in Names(Sort(n.entries, EntryBefore)) <==> Child(n, name).Some?
  {
    var sorted := Sort(n.entries, EntryBefore);
    ChildOfMember(n.entries, name);
    if Child(n, name).Some? {
      var e := Entry(name, Child(n, name).value);
      assert e in sorted;
      var i :| 0 <= i < |sorted| && sorted[i] == e;
      assert Names(sorted)[i] == name;
    }
    if name in Names(sorted) {
      var i :| 0 <= i < |sorted| && Names(sorted)[i] == name;
      assert sorted[i] in n.entries;
    }
  }

  lemma NamesOrdered(n: Node)
    requires n.Directory? && DistinctNames(n.entries)
    ensures StrictlyOrdered(Names(Sort(n.entries, EntryBefore)), NameBefore)
  {
    SortedNames(n.entries);
    var sorted := Sort(n.entries, EntryBefore);
    assert forall i, j | 0 <= i < j < |sorted| :: EntryBefore(sorted[i], sorted[j]);
  }

  lemma SameNames(a: Node, b: Node)
    requires a.Directory? && b.Directory? && DistinctNames(a.entries) && DistinctNames(b.entries) && SameTree(a, b)
    ensures Names(Sort(a.entries, EntryBefore)) == Names(Sort(b.entries, EntryBefore))
  {
    hide SameTree;
    var (x, y) := (Names(Sort(a.entries, EntryBefore)), Names(Sort(b.entries, EntryBefore)));
    NamesOrdered(a);
    NamesOrdered(b);
    forall name ensures name in x <==> name in y {
      NameOfChild(a, name);
      NameOfChild(b, name);
      SameTreeChild(a, b, name);
    }
    NameOrder();
    SameElementsSameSequence(x, y, NameBefore);
  }

  lemma NameOrder()
    ensures KeyOrder(NameBefore)
  {
    StringOrder();
  }

  /** Sorting makes the listings of the same directory agree entry by entry. */
  lemma SortedAlike(a: Node, b: Node)
    requires a.Directory? && b.Directory? && ValidTree(a) && ValidTree(b) && SameTree(a, b)
    ensures Alike(Sort(a.entries, EntryBefore), Sort(b.entries, EntryBefore))
  {
    hide SameTree;
    var (x, y) := (Sort(a.entries, EntryBefore), Sort(b.entries, EntryBefore));
    SameNames(a, b);
    assert |Names(x)| == |x| && |Names(y)| == |y|;
    forall i | 0 <= i < |x| ensures x[i].name == y[i].name && SameTree(x[i].node, y[i].node) {
      assert Names(x)[i] == Names(y)[i];
      assert x[i] in a.entries && y[i] in b.entries;
      ChildOfMember(a.entries, x[i].name);
      ChildOfMember(b.entries, y[i].name);
      SameTreeChild(a, b, x[i].name);
    }
  }

  lemma {:induction false} ListAlike(path: Path, a: seq<Entry>, b: seq<Entry>)
    requires Alike(a, b)
    ensures match (List(path, a), List(path, b))
      case (Ok(x), Ok(y)) => x.files == y.files && Alike(x.directories, y.directories)
      case (Err(x), Err(y)) => x == y
      case _ => false
  {
    hide SameTree, IsYaml, Posix;
    if a != [] {
      SameTreeRoot(a[0].node, b[0].node);
      ListAlike(path, a[1..], b[1..]);
      if a[0].node.Directory? && List(path, a[1..]).Ok? {
        AlikePrepend(a[0], b[0], List(path, a[1..]).value.directories, List(path, b[1..]).value.directories);
      }
    }
  }

  lemma AlikePrepend(x: Entry, y: Entry, a: seq<Entry>, b: seq<Entry>)
    requires x.name == y.name && SameTree(x.node, y.node) && Alike(a, b)
    ensures Alike([x] + a, [y] + b)
  {
  }

  lemma {:induction false} ScanSame(a: Node, b: Node, path: Path)
    requires a.Directory? && b.Directory? && ValidTree(a) && ValidTree(b) && SameTree(a, b)
    ensures Scan(a, path) == Scan(b, path)
    decreases Size(a), 0
  {
    hide SameTree, IsYaml;
    var (x, y) := (Sort(a.entries, EntryBefore), Sort(b.entries, EntryBefore));
    SortedAlike(a, b);
    SortSize(a.entries);
    ListAlike(path, x, y);
    if List(path, x).Ok? {
      ScanAllSame(List(path, x).value.directories, List(path, y).value.directories, path);
    }
  }

  lemma {:induction false} ScanAllSame(a: seq<Entry>, b: seq<Entry>, path: Path)
    requires Alike(a, b)
    requires forall d | d in a :: d.node.Directory? && ValidTree(d.node)
    requires forall d | d in b :: d.node.Directory? && ValidTree(d.node)
    ensures ScanAll(a, path) == ScanAll(b, path)
    decreases TotalSize(a), 1
  {
    hide SameTree, ValidTree, Scan;
    if a != [] {
      ScanSame(a[0].node, b[0].node, path + [a[0].name]);
      ScanAllSame(a[1..], b[1..], path);
    }
  }

  /** The outcome, the reported error included, does not depend on the order in
      which directories are enumerated. */
  lemma DiscoveryOrderIndependent(a: Node, b: Node)
    requires a.Directory? && b.Directory? && ValidTree(a) && ValidTree(b) && SameTree(a, b)
    ensures DiscoveryResult(a) == DiscoveryResult(b)
  {
    ScanSame(a, b, []);
  }
}
