/** A finite file tree, the paths in it, and `_checked_path` of
    backend/app/detection/loader.py. */
module FileTree {
  import opened Wrappers
  import opened Text
  import opened Sorting

  datatype Node =
    | Directory(entries: seq<Entry>)  // in the order the system enumerates them
    | Regular(content: string)
    | Link  // symbolic links and reparse points
    | Special  // sockets, devices and the like

  datatype Entry = Entry(name: string, node: Node)

  type Path = seq<string>  // components below the root

  datatype LoaderError =
    | FileError(path: string, category: string)
    | DuplicateRule(ruleId: string, firstPath: string, duplicatePath: string)

  function Posix(path: Path): string { if path == [] then "." else Join(path, '/') }

  // ---- Looking up a path ----

  function ChildOf(entries: seq<Entry>, name: string): Option<Node>
  {
    if entries == [] then None
    else if entries[0].name == name then Some(entries[0].node)
    else ChildOf(entries[1..], name)
  }

  function Child(n: Node, name: string): Option<Node>
  {
    if n.Directory? then ChildOf(n.entries, name) else None
  }

  function Lookup(n: Node, path: Path): Option<Node>
    decreases |path|
  {
    if path == [] then Some(n)
    else match Child(n, path[0]) case None => None case Some(c) => Lookup(c, path[1..])
  }

  predicate ValidName(name: string) { name != "" && name != "." && name != ".." && '/' !in name }

  predicate DistinctNames(entries: seq<Entry>)
  {
    forall i, j | 0 <= i < j < |entries| :: entries[i].name != entries[j].name
  }

  /** What every file system guarantees of the names in a directory. */
  predicate ValidTree(n: Node)
  {
    n.Directory? ==>
      && DistinctNames(n.entries)
      && forall e | e in n.entries :: ValidName(e.name) && ValidTree(e.node)
  }

  lemma {:induction false} ChildOfMember(entries: seq<Entry>, name: string)
    requires DistinctNames(entries)
    ensures forall e | e in entries && e.name == name :: ChildOf(entries, name) == Some(e.node)
    ensures ChildOf(entries, name).Some? ==> Entry(name, ChildOf(entries, name).value) in entries
  {
    if entries != [] {
      ChildOfMember(entries[1..], name);
      assert forall e | e in entries :: e == entries[0] || e in entries[1..];
      forall e | e in entries[1..] ensures e.name != entries[0].name {
        var k :| 0 <= k < |entries[1..]| && entries[1..][k] == e;
        assert entries[k + 1] == e;
      }
    }
  }

  /** A reported path can be read back, and only the root is written as a dot. */
  lemma PosixReadsBack(path: Path)
    requires forall part | part in path :: ValidName(part)
    ensures if path == [] then Posix(path) == "." else Split(Posix(path), '/') == path && Posix(path) != "."
  {
    if path != [] {
      SplitOfJoin(path, '/');
      if Posix(path) == "." {
        SplitWithout(".", '/');
      }
    }
  }

  // ---- Checking a path ----

  /** Walk from a node, refusing links at every step; the error is a category. */
  function Walk(n: Node, path: Path): Result<Node, string>
    decreases |path|
  {
    if n.Link? then Err("unsafe_path")
    else if path == [] then Ok(n)
    else match Child(n, path[0]) case None => Err("path_error") case Some(c) => Walk(c, path[1..])
  }

  function CheckPath(root: Node, path: Path): Result<Node, LoaderError>
  {
    if ".." in path then Err(FileError("<outside-root>", "unsafe_path"))
    else match Walk(root, path) case Ok(n) => Ok(n) case Err(category) => Err(FileError(Posix(path), category))
  }

  /** `_checked_path`: examine the root and then each component in turn. */
  method CheckedPath(root: Node, path: Path) returns (r: Result<Node, LoaderError>)
    ensures r == CheckPath(root, path)
  {
    if ".." in path { return Err(FileError("<outside-root>", "unsafe_path")); }
    var current := root;
    if current.Link? { return Err(FileError(Posix(path), "unsafe_path")); }
    for i := 0 to |path|
      invariant Walk(root, path) == Walk(current, path[i..]) && !current.Link?
    {
      var next := Child(current, path[i]);
      if next.None? { return Err(FileError(Posix(path), "path_error")); }
      current := next.value;
      assert path[i..][1..] == path[i + 1..];
      if current.Link? { return Err(FileError(Posix(path), "unsafe_path")); }
    }
    r := Ok(current);
  }

  /** Some prefix of the path leads to a link, the root included. */
  ghost predicate MeetsLink(n: Node, path: Path)
  {
    exists k | 0 <= k <= |path| :: Lookup(n, path[..k]) == Some(Link)
  }

  lemma MeetsLinkStep(n: Node, path: Path)
    requires path != []
    ensures MeetsLink(n, path) <==>
      n.Link? || (Child(n, path[0]).Some? && MeetsLink(Child(n, path[0]).value, path[1..]))
  {
    assert path[..0] == [];
    forall k | 1 <= k <= |path|
      ensures Lookup(n, path[..k]) ==
        match Child(n, path[0]) case None => None case Some(c) => Lookup(c, path[1..][..k - 1])
    {
      assert path[..k][1..] == path[1..][..k - 1];
    }
    if Child(n, path[0]).Some? && MeetsLink(Child(n, path[0]).value, path[1..]) {
      var k :| 0 <= k <= |path[1..]| && Lookup(Child(n, path[0]).value, path[1..][..k]) == Some(Link);
      assert Lookup(n, path[..k + 1]) == Some(Link);
    }
  }

  lemma {:induction false} WalkExact(n: Node, path: Path)
    ensures Walk(n, path) ==
      if MeetsLink(n, path) then Err("unsafe_path")
      else match Lookup(n, path) case None => Err("path_error") case Some(found) => Ok(found)
    decreases |path|
  {
    if path == [] {
      assert path[..0] == [];
      assert MeetsLink(n, path) <==> n.Link?;
    } else {
      MeetsLinkStep(n, path);
      if Child(n, path[0]).Some? { WalkExact(Child(n, path[0]).value, path[1..]); }
    }
  }

  /** A path is accepted exactly when it holds no parent escape, leads somewhere and
      meets no link on the way or at its end; the node it leads to is the result, and
      each refusal has its own category. */
  lemma CheckPathExact(root: Node, path: Path)
    ensures CheckPath(root, path).Ok? <==> ".." !in path && Lookup(root, path).Some? && !MeetsLink(root, path)
    ensures CheckPath(root, path).Ok? ==> Lookup(root, path) == Some(CheckPath(root, path).value)
    ensures ".." in path ==> CheckPath(root, path) == Err(FileError("<outside-root>", "unsafe_path"))
    ensures ".." !in path && MeetsLink(root, path) ==> CheckPath(root, path) == Err(FileError(Posix(path), "unsafe_path"))
    ensures ".." !in path && !MeetsLink(root, path) && Lookup(root, path).None? ==>
      CheckPath(root, path) == Err(FileError(Posix(path), "path_error"))
  {
    WalkExact(root, path);
  }

  lemma {:induction false} WalkOneMore(n: Node, path: Path, name: string)
    requires Walk(n, path).Ok?
    ensures Walk(n, path + [name]) ==
      match Child(Walk(n, path).value, name) case None => Err("path_error") case Some(c) => Walk(c, [])
    decreases |path|
  {
    if path == [] {
      assert [name][1..] == [];
    } else {
      assert (path + [name])[1..] == path[1..] + [name];
      WalkOneMore(Child(n, path[0]).value, path[1..], name);
    }
  }

  // ---- Sizes ----

  function Size(n: Node): (s: nat)
    ensures s >= 1
    decreases n, 1
  {
    if n.Directory? then 1 + TotalSize(n.entries) else 1
  }

  function TotalSize(entries: seq<Entry>): nat
    decreases entries, 0
  {
    if entries == [] then 0 else Size(entries[0].node) + TotalSize(entries[1..])
  }

  predicate EntryBefore(a: Entry, b: Entry) { StringLess(a.name, b.name) }

  lemma {:induction false} InsertSize(x: Entry, s: seq<Entry>)
    ensures TotalSize(Insert(x, s, EntryBefore)) == Size(x.node) + TotalSize(s)
  {
    if s != [] && EntryBefore(s[0], x) {
      InsertSize(x, s[1..]);
    }
  }

  lemma {:induction false} SortSize(s: seq<Entry>)
    ensures TotalSize(Sort(s, EntryBefore)) == TotalSize(s)
  {
    if s != [] {
      SortSize(s[1..]);
      InsertSize(s[0], Sort(s[1..], EntryBefore));
    }
  }

  // ---- Everything below a directory ----

  ghost predicate NoRepeat(paths: seq<Path>)
  {
    forall i, j | 0 <= i < j < |paths| :: paths[i] != paths[j]
  }

  lemma NoRepeatConcat(a: seq<Path>, b: seq<Path>)
    requires NoRepeat(a) && NoRepeat(b) && forall q | q in b :: q !in a
    ensures NoRepeat(a + b)
  {
    forall i, j | 0 <= i < j < |a + b| ensures (a + b)[i] != (a + b)[j] {
      if i < |a| <= j {
        assert a[i] in a && b[j - |a|] in b;
      }
    }
  }

  lemma TailNamesDiffer(entries: seq<Entry>)
    requires entries != [] && DistinctNames(entries)
    ensures DistinctNames(entries[1..]) && forall e | e in entries[1..] :: e.name != entries[0].name
  {
    forall e | e in entries[1..] ensures e.name != entries[0].name {
      var k :| 0 <= k < |entries[1..]| && entries[1..][k] == e;
      assert entries[k + 1] == e;
    }
  }

  lemma SortedNames(entries: seq<Entry>)
    requires DistinctNames(entries)
    ensures StrictlyOrdered(Sort(entries, EntryBefore), EntryBefore)
    ensures DistinctNames(Sort(entries, EntryBefore))
  {
    StringOrder();
    assert KeyOrder(EntryBefore);
    SortStrict(entries, EntryBefore);
  }

  lemma DistinctPrepend(e: Entry, entries: seq<Entry>)
    requires DistinctNames(entries) && forall d | d in entries :: d.name != e.name
    ensures DistinctNames([e] + entries)
  {
    assert forall i | 0 < i < |[e] + entries| :: ([e] + entries)[i] == entries[i - 1] && entries[i - 1] in entries;
  }

  /** The paths of some entries of a directory. */
  function Under(path: Path, entries: seq<Entry>): (paths: seq<Path>)
    ensures |paths| == |entries| && forall i | 0 <= i < |entries| :: paths[i] == path + [entries[i].name]
  {
    if entries == [] then [] else [path + [entries[0].name]] + Under(path, entries[1..])
  }

  function Subdirectories(entries: seq<Entry>): (r: seq<Entry>)
    ensures forall d :: d in r <==> d in entries && d.node.Directory?
    ensures TotalSize(r) <= TotalSize(entries)
  {
    if entries == [] then []
    else if entries[0].node.Directory? then [entries[0]] + Subdirectories(entries[1..])
    else Subdirectories(entries[1..])
  }

  /** The paths below a directory at `path`: its own entries, then depth-first what is
      below each of its subdirectories. */
  ghost function Below(n: Node, path: Path): seq<Path>
    requires n.Directory?
    decreases Size(n), 0
  {
    SortSize(n.entries);
    var entries := Sort(n.entries, EntryBefore);
    Under(path, entries) + AllBelow(Subdirectories(entries), path)
  }

  ghost function AllBelow(directories: seq<Entry>, path: Path): seq<Path>
    requires forall d | d in directories :: d.node.Directory?
    decreases TotalSize(directories), 1
  {
    if directories == [] then []
    else Below(directories[0].node, path + [directories[0].name]) + AllBelow(directories[1..], path)
  }

  /** `q` leads somewhere below the node at `path`. */
  predicate IsBelow(n: Node, path: Path, q: Path)
  {
    |q| > |path| && q[..|path|] == path && Lookup(n, q[|path|..]).Some?
  }

  predicate IsUnder(e: Entry, path: Path, q: Path) { q == path + [e.name] }

  predicate IsBelowEntry(e: Entry, path: Path, q: Path)
  {
    e.node.Directory? && IsBelow(e.node, path + [e.name], q)
  }

  lemma IsBelowStep(n: Node, path: Path, q: Path)
    requires n.Directory? && ValidTree(n)
    ensures IsBelow(n, path, q) <==>
      || (exists e | e in n.entries :: IsUnder(e, path, q))
      || (exists e | e in n.entries :: IsBelowEntry(e, path, q))
  {
    if |q| > |path| && q[..|path|] == path {
      var p := q[|path|..];
      ChildOfMember(n.entries, p[0]);
      assert q == path + [p[0]] + p[1..];
      assert q[..|path| + 1] == path + [p[0]] && q[|path| + 1..] == p[1..];
      if IsBelow(n, path, q) {
        var e := Entry(p[0], Child(n, p[0]).value);
        assert e in n.entries;
        assert Lookup(e.node, p[1..]).Some?;
        assert |p| > 1 ==> Child(e.node, p[1..][0]).Some?;
        assert if |p| == 1 then IsUnder(e, path, q) else IsBelowEntry(e, path, q);
      }
    }
    forall e | e in n.entries && IsUnder(e, path, q) ensures IsBelow(n, path, q) {
      ChildOfMember(n.entries, e.name);
      assert q[|path|..] == [e.name];
    }
    forall e | e in n.entries && IsBelowEntry(e, path, q) ensures IsBelow(n, path, q) {
      ChildOfMember(n.entries, e.name);
      assert q[..|path| + 1][|path|] == e.name;
      assert q[|path|..] == [e.name] + q[|path| + 1..];
      assert q[..|path|] == q[..|path| + 1][..|path|];
    }
  }

  /** Every path below a directory occurs, exactly once. */
  lemma {:induction false} BelowExact(n: Node, path: Path)
    requires n.Directory? && ValidTree(n)
    ensures forall q :: q in Below(n, path) <==> IsBelow(n, path, q)
    ensures NoRepeat(Below(n, path))
    decreases Size(n), 0
  {
    hide IsBelow, IsBelowEntry, IsUnder, Under, AllBelow, Subdirectories;
    SortSize(n.entries);
    SortedNames(n.entries);
    var entries := Sort(n.entries, EntryBefore);
    SubdirectoriesDiffer(entries);
    AllBelowExact(Subdirectories(entries), path);
    LayersTogether(n, path, Under(path, entries), AllBelow(Subdirectories(entries), path));
  }

  /** A directory's own entries and what is below its subdirectories. */
  lemma LayersTogether(n: Node, path: Path, own: seq<Path>, deep: seq<Path>)
    requires n.Directory? && ValidTree(n)
    requires own == Under(path, Sort(n.entries, EntryBefore))
    requires forall q :: q in deep <==> exists d | d in Subdirectories(Sort(n.entries, EntryBefore)) :: IsBelowEntry(d, path, q)
    requires NoRepeat(deep)
    ensures forall q :: q in own + deep <==> IsBelow(n, path, q)
    ensures NoRepeat(own + deep)
  {
    hide IsBelow, IsBelowEntry, IsUnder, Under, Sort, ValidTree, Subdirectories;
    forall q ensures q in own + deep <==> IsBelow(n, path, q) {
      UnderMember(n, path, q);
      DeepMember(n, path, q);
      IsBelowStep(n, path, q);
    }
    forall q | q in deep ensures q !in own {
      var e :| e in Subdirectories(Sort(n.entries, EntryBefore)) && IsBelowEntry(e, path, q);
      DeeperThan(e, path, q);
    }
    UnderDiffer(n, path);
    NoRepeatConcat(own, deep);
  }

  lemma UnderDiffer(n: Node, path: Path)
    requires n.Directory? && ValidTree(n)
    ensures NoRepeat(Under(path, Sort(n.entries, EntryBefore)))
  {
    SortedNames(n.entries);
    var entries := Sort(n.entries, EntryBefore);
    forall i, j | 0 <= i < j < |entries| ensures Under(path, entries)[i] != Under(path, entries)[j] {
      assert Under(path, entries)[i][|path|] == entries[i].name;
    }
  }

  lemma UnderMember(n: Node, path: Path, q: Path)
    requires n.Directory?
    ensures q in Under(path, Sort(n.entries, EntryBefore)) <==> exists e | e in n.entries :: IsUnder(e, path, q)
  {
    var entries := Sort(n.entries, EntryBefore);
    if q in Under(path, entries) {
      var i :| 0 <= i < |entries| && Under(path, entries)[i] == q;
      assert entries[i] in n.entries && IsUnder(entries[i], path, q);
    }
    if e :| e in n.entries && IsUnder(e, path, q) {
      assert e in entries;
      var i :| 0 <= i < |entries| && entries[i] == e;
      assert Under(path, entries)[i] == q;
    }
  }

  lemma DeepMember(n: Node, path: Path, q: Path)
    requires n.Directory?
    ensures
      (exists d | d in Subdirectories(Sort(n.entries, EntryBefore)) :: IsBelowEntry(d, path, q))
      <==> exists e | e in n.entries :: IsBelowEntry(e, path, q)
  {
    hide IsBelow;
    var directories := Subdirectories(Sort(n.entries, EntryBefore));
    if e :| e in n.entries && IsBelowEntry(e, path, q) {
      assert e in directories;
    }
  }

  lemma DeeperThan(e: Entry, path: Path, q: Path)
    requires IsBelowEntry(e, path, q)
    ensures |q| > |path| + 1 && q[|path|] == e.name
  {
    assert q[..|path| + 1][|path|] == e.name;
  }

  lemma {:induction false} SubdirectoriesDiffer(entries: seq<Entry>)
    requires DistinctNames(entries)
    ensures DistinctNames(Subdirectories(entries))
  {
    if entries != [] {
      TailNamesDiffer(entries);
      SubdirectoriesDiffer(entries[1..]);
      assert forall d | d in Subdirectories(entries[1..]) :: d in entries[1..];
      if entries[0].node.Directory? { DistinctPrepend(entries[0], Subdirectories(entries[1..])); }
    }
  }

  lemma {:induction false} AllBelowExact(directories: seq<Entry>, path: Path)
    requires DistinctNames(directories)
    requires forall d | d in directories :: d.node.Directory? && ValidTree(d.node)
    ensures forall q :: q in AllBelow(directories, path) <==> exists d | d in directories :: IsBelowEntry(d, path, q)
    ensures NoRepeat(AllBelow(directories, path))
    decreases TotalSize(directories), 1
  {
    hide IsBelow, ValidTree;
    if directories != [] {
      var (d, rest) := (directories[0], directories[1..]);
      TailNamesDiffer(directories);
      BelowExact(d.node, path + [d.name]);
      AllBelowExact(rest, path);
      assert forall x :: x in directories <==> x == d || x in rest;
      var (first, others) := (Below(d.node, path + [d.name]), AllBelow(rest, path));
      forall q ensures q in first <==> IsBelowEntry(d, path, q) { }
      forall q | q in others ensures q !in first {
        var e :| e in rest && IsBelowEntry(e, path, q);
        DeeperThan(e, path, q);
        if q in first { DeeperThan(d, path, q); }
      }
      NoRepeatConcat(first, others);
    }
  }
}
