/** Loading a whole rule library, all or nothing, and what a loaded library
    guarantees to the engine: backend/app/detection/loader.py. */
module Library {
  import opened Wrappers
  import opened Text
  import opened Sorting
  import opened Runtime
  import opened Events
  import opened Conditions
  import opened Semantics
  import opened StaticCheck
  import opened Engine
  import opened FileTree
  import opened Discovery
  import opened DiscoveryLaws

  /** Reading and parsing the content of one file: a rule that is not validated yet,
      or the category of the failure. */
  type Parser = string -> Result<Rule, string>

  /** `_load_file`: structural and then semantic validation of the parsed rule. */
  function LoadFile(h: Host, parse: Parser, root: Node, path: Path): Result<Rule, LoaderError>
  {
    match CheckPath(root, path)
    case Err(e) => Err(e)
    case Ok(node) =>
      if !node.Regular? then Err(FileError(Posix(path), "not_regular_file"))
      else
        match parse(node.content)
        case Err(category) => Err(FileError(Posix(path), category))
        case Ok(rule) =>
          if ValidRule(h, rule) && RuleRejection(h, rule).None? then Ok(rule)
          else Err(FileError(Posix(path), "invalid_rule"))
  }

  function LoadPaths(h: Host, parse: Parser, root: Node, paths: seq<Path>, ids: map<string, string>)
    : (r: Result<seq<Rule>, LoaderError>)
    ensures r.Ok? ==> |r.value| == |paths|
  {
    if paths == [] then Ok([])
    else
      match LoadFile(h, parse, root, paths[0])
      case Err(e) => Err(e)
      case Ok(rule) =>
        if rule.id in ids then Err(DuplicateRule(rule.id, ids[rule.id], Posix(paths[0])))
        else
          match LoadPaths(h, parse, root, paths[1..], ids[rule.id := Posix(paths[0])])
          case Err(e) => Err(e)
          case Ok(rest) => Ok([rule] + rest)
  }

  /** The path handed to the loader and what it resolves to, if anything. */
  datatype RootPath = RootPath(absolute: bool, target: Option<Node>)

  function LoadResult(h: Host, parse: Parser, root: RootPath): Result<seq<Rule>, LoaderError>
  {
    if !root.absolute then Err(FileError(".", "absolute_root_required"))
    else if root.target.None? || !root.target.value.Directory? then Err(FileError(".", "invalid_root"))
    else
      match DiscoveryResult(root.target.value)
      case Err(e) => Err(e)
      case Ok(paths) => LoadPaths(h, parse, root.target.value, paths, map[])
  }

  lemma AppendRules(a: seq<Rule>, b: seq<Rule>, rule: Rule)
    ensures a + ([rule] + b) == a + [rule] + b
  {
  }

  /** `load_detection_rules` */
  method LoadDetectionRules(h: Host, parse: Parser, root: RootPath) returns (r: Result<seq<Rule>, LoaderError>)
    requires root.target.Some? ==> ValidTree(root.target.value)
    ensures r == LoadResult(h, parse, root)
  {
    hide LoadFile, DiscoveryResult, ValidTree;
    if !root.absolute { return Err(FileError(".", "absolute_root_required")); }
    if root.target.None? || !root.target.value.Directory? { return Err(FileError(".", "invalid_root")); }
    var tree := root.target.value;
    var discovered, _ := Discover(tree);
    if discovered.Err? { return Err(discovered.error); }
    var paths := discovered.value;
    var rules: seq<Rule> := [];
    var ids: map<string, string> := map[];
    assert paths[0..] == paths;
    for i := 0 to |paths|
      invariant match (LoadPaths(h, parse, tree, paths, map[]), LoadPaths(h, parse, tree, paths[i..], ids))
        case (Ok(all), Ok(rest)) => all == rules + rest
        case (Err(e), Err(e')) => e == e'
        case _ => false
    {
      var rule := LoadFile(h, parse, tree, paths[i]);
      assert paths[i..][0] == paths[i] && paths[i..][1..] == paths[i + 1..];
      if rule.Err? { return Err(rule.error); }
      var relative := Posix(paths[i]);
      if rule.value.id in ids { return Err(DuplicateRule(rule.value.id, ids[rule.value.id], relative)); }
      ids := ids[rule.value.id := relative];
      ghost var rest := LoadPaths(h, parse, tree, paths[i + 1..], ids);
      if rest.Ok? { AppendRules(rules, rest.value, rule.value); }
      rules := rules + [rule.value];
    }
    assert rules + [] == rules;
    r := Ok(rules);
  }

  // ---- One file ----

  /** The path leads, without parent escapes or links, to a file with the content. */
  ghost predicate HoldsContent(root: Node, path: Path, content: string)
  {
    ".." !in path && !MeetsLink(root, path) && Lookup(root, path) == Some(Regular(content))
  }

  /** The file at the path declares exactly this rule, and the rule is acceptable. */
  ghost predicate Declares(h: Host, parse: Parser, root: Node, path: Path, rule: Rule)
  {
    exists content ::
      && HoldsContent(root, path, content)
      && parse(content) == Ok(rule) && ValidRule(h, rule) && RuleRejection(h, rule).None?
  }

  /** Why a file that is reached does not load: its category of failure. */
  ghost predicate FailsWith(h: Host, parse: Parser, root: Node, path: Path, category: string)
  {
    exists content ::
      && HoldsContent(root, path, content)
      && match parse(content)
         case Err(parsing) => category == parsing
         case Ok(rule) => category == "invalid_rule" && (!ValidRule(h, rule) || RuleRejection(h, rule).Some?)
  }

  /** A file loads as a rule exactly when it declares that rule; when it is reached and
      does not load, the error names its path and what went wrong. */
  lemma LoadFileExact(h: Host, parse: Parser, root: Node, path: Path)
    ensures forall rule :: LoadFile(h, parse, root, path) == Ok(rule) <==> Declares(h, parse, root, path, rule)
    ensures forall category :: FailsWith(h, parse, root, path, category) ==>
      LoadFile(h, parse, root, path) == Err(FileError(Posix(path), category))
    ensures LoadFile(h, parse, root, path).Err? && (exists content :: HoldsContent(root, path, content)) ==>
      exists category :: FailsWith(h, parse, root, path, category)
    ensures CheckPath(root, path).Err? ==> LoadFile(h, parse, root, path) == Err(CheckPath(root, path).error)
    ensures CheckPath(root, path).Ok? && Lookup(root, path).Some? && !Lookup(root, path).value.Regular? ==>
      LoadFile(h, parse, root, path) == Err(FileError(Posix(path), "not_regular_file"))
  {
    hide ValidRule, RuleRejection, MeetsLink, CheckPath, Lookup;
    CheckPathExact(root, path);
    if CheckPath(root, path).Ok? && CheckPath(root, path).value.Regular? {
      var content := CheckPath(root, path).value.content;
      assert HoldsContent(root, path, content);
      if parse(content).Ok? {
        if ValidRule(h, parse(content).value) && RuleRejection(h, parse(content).value).None? {
          assert Declares(h, parse, root, path, parse(content).value);
        } else {
          assert FailsWith(h, parse, root, path, "invalid_rule");
        }
      } else {
        assert FailsWith(h, parse, root, path, parse(content).error);
      }
    }
  }

  // ---- All or nothing ----

  /** Every path loads, to the rule at the same position. */
  ghost predicate AllLoad(h: Host, parse: Parser, root: Node, paths: seq<Path>)
  {
    forall i | 0 <= i < |paths| :: LoadFile(h, parse, root, paths[i]).Ok?
  }

  /** No two of the files that load declare the same rule identity. */
  ghost predicate IdsDiffer(h: Host, parse: Parser, root: Node, paths: seq<Path>)
  {
    forall i, j | 0 <= i < j < |paths| ::
      LoadFile(h, parse, root, paths[i]).Ok? && LoadFile(h, parse, root, paths[j]).Ok? ==>
        LoadFile(h, parse, root, paths[i]).value.id != LoadFile(h, parse, root, paths[j]).value.id
  }

  ghost predicate IdsUnused(h: Host, parse: Parser, root: Node, paths: seq<Path>, ids: map<string, string>)
  {
    forall i | 0 <= i < |paths| ::
      LoadFile(h, parse, root, paths[i]).Ok? ==> LoadFile(h, parse, root, paths[i]).value.id !in ids
  }

  lemma {:induction false} LoadPathsExact(h: Host, parse: Parser, root: Node, paths: seq<Path>, ids: map<string, string>)
    ensures LoadPaths(h, parse, root, paths, ids).Ok? <==>
      AllLoad(h, parse, root, paths) && IdsDiffer(h, parse, root, paths) && IdsUnused(h, parse, root, paths, ids)
    ensures LoadPaths(h, parse, root, paths, ids).Ok? ==>
      forall i | 0 <= i < |paths| ::
        LoadFile(h, parse, root, paths[i]) == Ok(LoadPaths(h, parse, root, paths, ids).value[i])
  {
    hide LoadFile;
    if paths != [] {
      var tail := paths[1..];
      assert forall i | 0 < i < |paths| :: paths[i] == tail[i - 1];
      assert forall i | 0 <= i < |tail| :: tail[i] == paths[i + 1];
      var first := LoadFile(h, parse, root, paths[0]);
      if first.Ok? {
        var ids' := ids[first.value.id := Posix(paths[0])];
        LoadPathsExact(h, parse, root, tail, ids');
        IdsUnusedStep(h, parse, root, paths, ids);
      }
    }
  }

  lemma IdsUnusedStep(h: Host, parse: Parser, root: Node, paths: seq<Path>, ids: map<string, string>)
    requires paths != [] && LoadFile(h, parse, root, paths[0]).Ok?
    ensures
      var id := LoadFile(h, parse, root, paths[0]).value.id;
      AllLoad(h, parse, root, paths) && IdsDiffer(h, parse, root, paths) && IdsUnused(h, parse, root, paths, ids) <==>
        && id !in ids
        && AllLoad(h, parse, root, paths[1..]) && IdsDiffer(h, parse, root, paths[1..])
        && IdsUnused(h, parse, root, paths[1..], ids[id := Posix(paths[0])])
  {
    hide LoadFile, Posix;
    var tail := paths[1..];
    assert forall i | 0 < i < |paths| :: paths[i] == tail[i - 1];
    assert forall i | 0 <= i < |tail| :: tail[i] == paths[i + 1];
  }

  /** Every rule file of the tree declares a rule, and different files declare rules with
      different identities. */
  ghost predicate Loadable(h: Host, parse: Parser, tree: Node)
  {
    && (forall p | IsRuleFile(tree, p) :: exists rule :: Declares(h, parse, tree, p, rule))
    && (forall p, q, rule, other | IsRuleFile(tree, p) && IsRuleFile(tree, q) && p != q
          && Declares(h, parse, tree, p, rule) && Declares(h, parse, tree, q, other) :: rule.id != other.id)
  }

  /** The rules that the rule files declare, in relative-path order. */
  ghost predicate InPathOrder(h: Host, parse: Parser, tree: Node, paths: seq<Path>, rules: seq<Rule>)
  {
    && StrictlyOrdered(paths, PathBefore)
    && (forall p :: p in paths <==> IsRuleFile(tree, p))
    && |rules| == |paths|
    && (forall i | 0 <= i < |paths| :: Declares(h, parse, tree, paths[i], rules[i]))
  }

  lemma LoadableByPosition(h: Host, parse: Parser, tree: Node, paths: seq<Path>)
    requires StrictlyOrdered(paths, PathBefore) && forall p :: p in paths <==> IsRuleFile(tree, p)
    ensures Loadable(h, parse, tree) <==> AllLoad(h, parse, tree, paths) && IdsDiffer(h, parse, tree, paths)
  {
    hide LoadFile, IsRuleFile, Declares;
    PathsDiffer(paths);
    forall p ensures (exists rule :: Declares(h, parse, tree, p, rule)) <==> LoadFile(h, parse, tree, p).Ok? {
      DeclaredRule(h, parse, tree, p);
    }
    if Loadable(h, parse, tree) {
      forall i | 0 <= i < |paths| ensures LoadFile(h, parse, tree, paths[i]).Ok? {
        assert IsRuleFile(tree, paths[i]);
      }
      forall i, j | 0 <= i < j < |paths|
        ensures LoadFile(h, parse, tree, paths[i]).value.id != LoadFile(h, parse, tree, paths[j]).value.id
      {
        assert IsRuleFile(tree, paths[i]) && IsRuleFile(tree, paths[j]);
        DeclaredRule(h, parse, tree, paths[i]);
        DeclaredRule(h, parse, tree, paths[j]);
      }
    } else if AllLoad(h, parse, tree, paths) && IdsDiffer(h, parse, tree, paths) {
      forall p, q, rule, other | IsRuleFile(tree, p) && IsRuleFile(tree, q) && p != q
          && Declares(h, parse, tree, p, rule) && Declares(h, parse, tree, q, other)
        ensures rule.id != other.id
      {
        DeclaredRule(h, parse, tree, p);
        DeclaredRule(h, parse, tree, q);
        var i :| 0 <= i < |paths| && paths[i] == p;
        var j :| 0 <= j < |paths| && paths[j] == q;
      }
    }
  }

  lemma PathsDiffer(paths: seq<Path>)
    requires StrictlyOrdered(paths, PathBefore)
    ensures forall i, j | 0 <= i < j < |paths| :: paths[i] != paths[j]
  {
    StringOrder();
    forall i, j | 0 <= i < j < |paths| ensures paths[i] != paths[j] {
      assert PathBefore(paths[i], paths[j]);
    }
  }

  lemma DeclaredRule(h: Host, parse: Parser, root: Node, path: Path)
    ensures (exists rule :: Declares(h, parse, root, path, rule)) <==> LoadFile(h, parse, root, path).Ok?
    ensures forall rule :: Declares(h, parse, root, path, rule) <==> LoadFile(h, parse, root, path) == Ok(rule)
  {
    hide LoadFile, Declares;
    LoadFileExact(h, parse, root, path);
    if LoadFile(h, parse, root, path).Ok? {
      assert Declares(h, parse, root, path, LoadFile(h, parse, root, path).value);
    }
  }

  /** Loading succeeds iff the root is an absolute directory without hazards, every rule
      file declares an acceptable rule, and all identities differ; the rules are the
      declared ones, in path order. */
  lemma LoadExact(h: Host, parse: Parser, root: RootPath)
    requires root.target.Some? ==> ValidTree(root.target.value)
    ensures LoadResult(h, parse, root).Ok? <==>
      && root.absolute && root.target.Some? && root.target.value.Directory?
      && Safe(root.target.value) && Loadable(h, parse, root.target.value)
    ensures LoadResult(h, parse, root).Ok? ==>
      exists paths :: InPathOrder(h, parse, root.target.value, paths, LoadResult(h, parse, root).value)
  {
    hide LoadFile, IsRuleFile, IsHazard, LoadPaths, Loadable, Declares;
    if root.absolute && root.target.Some? && root.target.value.Directory? {
      var tree := root.target.value;
      DiscoveryExact(tree);
      if DiscoveryResult(tree).Ok? {
        var paths := DiscoveryResult(tree).value;
        LoadPathsExact(h, parse, tree, paths, map[]);
        LoadableByPosition(h, parse, tree, paths);
        if LoadPaths(h, parse, tree, paths, map[]).Ok? {
          forall i | 0 <= i < |paths|
            ensures Declares(h, parse, tree, paths[i], LoadPaths(h, parse, tree, paths, map[]).value[i])
          {
            DeclaredRule(h, parse, tree, paths[i]);
          }
          assert InPathOrder(h, parse, tree, paths, LoadPaths(h, parse, tree, paths, map[]).value);
        }
      }
    }
  }

  // ---- Which failure is reported ----

  /** The first paths load as rules with different identities. */
  ghost predicate LoadedTo(h: Host, parse: Parser, root: Node, paths: seq<Path>, k: nat)
    requires k <= |paths|
  {
    && (forall j | 0 <= j < k :: LoadFile(h, parse, root, paths[j]).Ok?)
    && (forall i, j | 0 <= i < j < k :: IdAt(h, parse, root, paths[i]) != IdAt(h, parse, root, paths[j]))
  }

  /** The first path that fails, and how: its file does not load, or its rule has the
      identity of an earlier one. */
  ghost predicate StopsAt(h: Host, parse: Parser, root: Node, paths: seq<Path>, k: nat, error: LoaderError)
  {
    && k < |paths|
    && LoadedTo(h, parse, root, paths, k)
    && match LoadFile(h, parse, root, paths[k])
       case Err(e) => error == e
       case Ok(rule) => exists j :: RepeatsAt(h, parse, root, paths, j, k, rule.id, error)
  }

  ghost predicate RepeatsAt(h: Host, parse: Parser, root: Node, paths: seq<Path>, j: int, k: int, id: string, error: LoaderError)
  {
    && 0 <= j < k < |paths|
    && LoadFile(h, parse, root, paths[j]).Ok? && LoadFile(h, parse, root, paths[j]).value.id == id
    && error == DuplicateRule(id, Posix(paths[j]), Posix(paths[k]))
  }

  /** The identity map holds the identities of the first paths, each with its path. */
  ghost predicate Describes(h: Host, parse: Parser, root: Node, paths: seq<Path>, i: nat, ids: map<string, string>)
    requires i <= |paths|
  {
    && (forall j | 0 <= j < i :: IdAt(h, parse, root, paths[j]) in ids
          && ids[IdAt(h, parse, root, paths[j])] == Posix(paths[j]))
    && (forall id | id in ids :: exists j | 0 <= j < i :: IdAt(h, parse, root, paths[j]) == id)
  }

  function IdAt(h: Host, parse: Parser, root: Node, path: Path): string
  {
    match LoadFile(h, parse, root, path) case Ok(rule) => rule.id case Err(_) => ""
  }

  lemma {:induction false} LoadPathsStop(h: Host, parse: Parser, root: Node, paths: seq<Path>, i: nat, ids: map<string, string>)
    returns (k: nat)
    requires i <= |paths| && Describes(h, parse, root, paths, i, ids)
    requires LoadedTo(h, parse, root, paths, i)
    requires LoadPaths(h, parse, root, paths[i..], ids).Err?
    ensures StopsAt(h, parse, root, paths, k, LoadPaths(h, parse, root, paths[i..], ids).error)
    decreases |paths| - i
  {
    hide LoadFile, Posix, LoadedTo, Describes;
    var first := LoadFile(h, parse, root, paths[i]);
    assert paths[i..][0] == paths[i] && paths[i..][1..] == paths[i + 1..];
    if first.Err? {
      k := i;
    } else if first.value.id in ids {
      k := i;
      DescribedRepeat(h, parse, root, paths, i, ids);
    } else {
      DescribesStep(h, parse, root, paths, i, ids);
      k := LoadPathsStop(h, parse, root, paths, i + 1, ids[first.value.id := Posix(paths[i])]);
    }
  }

  lemma DescribedRepeat(h: Host, parse: Parser, root: Node, paths: seq<Path>, i: nat, ids: map<string, string>)
    requires i < |paths| && Describes(h, parse, root, paths, i, ids) && LoadedTo(h, parse, root, paths, i)
    requires LoadFile(h, parse, root, paths[i]).Ok? && LoadFile(h, parse, root, paths[i]).value.id in ids
    ensures
      var id := LoadFile(h, parse, root, paths[i]).value.id;
      exists j :: RepeatsAt(h, parse, root, paths, j, i, id, DuplicateRule(id, ids[id], Posix(paths[i])))
  {
    hide LoadFile, Posix;
    var id := LoadFile(h, parse, root, paths[i]).value.id;
    var j :| 0 <= j < i && IdAt(h, parse, root, paths[j]) == id;
    assert RepeatsAt(h, parse, root, paths, j, i, id, DuplicateRule(id, ids[id], Posix(paths[i])));
  }

  lemma DescribesStep(h: Host, parse: Parser, root: Node, paths: seq<Path>, i: nat, ids: map<string, string>)
    requires i < |paths| && Describes(h, parse, root, paths, i, ids)
    requires LoadedTo(h, parse, root, paths, i)
    requires LoadFile(h, parse, root, paths[i]).Ok? && LoadFile(h, parse, root, paths[i]).value.id !in ids
    ensures Describes(h, parse, root, paths, i + 1, ids[LoadFile(h, parse, root, paths[i]).value.id := Posix(paths[i])])
    ensures LoadedTo(h, parse, root, paths, i + 1)
  {
    hide LoadFile, Posix, IdAt;
    IdAtLoaded(h, parse, root, paths[i]);
    DescribesMore(h, parse, root, paths, i, ids);
  }

  lemma IdAtLoaded(h: Host, parse: Parser, root: Node, path: Path)
    requires LoadFile(h, parse, root, path).Ok?
    ensures IdAt(h, parse, root, path) == LoadFile(h, parse, root, path).value.id
  {
    hide LoadFile;
  }

  lemma DescribesMore(h: Host, parse: Parser, root: Node, paths: seq<Path>, i: nat, ids: map<string, string>)
    requires i < |paths| && Describes(h, parse, root, paths, i, ids) && IdAt(h, parse, root, paths[i]) !in ids
    ensures Describes(h, parse, root, paths, i + 1, ids[IdAt(h, parse, root, paths[i]) := Posix(paths[i])])
  {
    hide IdAt, Posix;
    var more := ids[IdAt(h, parse, root, paths[i]) := Posix(paths[i])];
    forall id | id in more ensures exists j | 0 <= j < i + 1 :: IdAt(h, parse, root, paths[j]) == id {
      if id in ids {
        var j :| 0 <= j < i && IdAt(h, parse, root, paths[j]) == id;
      }
    }
  }

  /** Every rule file of a hazard-free tree is reached, with its content. */
  lemma RuleFileIsReached(tree: Node, p: Path) returns (content: string)
    requires ValidTree(tree) && Safe(tree) && IsRuleFile(tree, p)
    ensures HoldsContent(tree, p, content)
  {
    content := Lookup(tree, p).value.content;
    hide IsYaml, ValidTree;
    FoundPathsAreValid(tree, p);
    forall k | 0 <= k <= |p| ensures Lookup(tree, p[..k]) != Some(Link) {
      assert !IsHazard(tree, p[..k]);
    }
  }

  /** Two files declare rules with one identity, which the error names with both paths. */
  ghost predicate Repeats(h: Host, parse: Parser, tree: Node, p: Path, rule: Rule, q: Path, other: Rule, error: LoaderError)
  {
    && Declares(h, parse, tree, p, rule) && Declares(h, parse, tree, q, other)
    && rule.id == other.id && error == DuplicateRule(other.id, Posix(p), Posix(q))
  }

  ghost predicate DeclaresRule(h: Host, parse: Parser, tree: Node, path: Path)
  {
    exists rule :: Declares(h, parse, tree, path, rule)
  }

  /** The first paths declare rules with different identities. */
  ghost predicate GoodTo(h: Host, parse: Parser, tree: Node, paths: seq<Path>, k: nat)
    requires k <= |paths|
  {
    && (forall j | 0 <= j < k :: DeclaresRule(h, parse, tree, paths[j]))
    && (forall i, j, rule, other | 0 <= i < j < k
          && Declares(h, parse, tree, paths[i], rule) && Declares(h, parse, tree, paths[j], other) :: rule.id != other.id)
  }

  /** Everything up to the failing path declares a rule of its own identity; that path
      fails with a category of its own or repeats the identity of an earlier one. */
  ghost predicate FirstBadFile(h: Host, parse: Parser, tree: Node, paths: seq<Path>, k: nat, error: LoaderError)
  {
    && k < |paths| && GoodTo(h, parse, tree, paths, k)
    && (|| (exists category :: FailsWith(h, parse, tree, paths[k], category) && error == FileError(Posix(paths[k]), category))
        || (exists j, rule, other | 0 <= j < k :: Repeats(h, parse, tree, paths[j], rule, paths[k], other, error)))
  }

  /** A failing load of a hazard-free tree reports the first bad file in path order. */
  lemma LoadErrorIsFirst(h: Host, parse: Parser, root: RootPath) returns (paths: seq<Path>, k: nat)
    requires root.absolute && root.target.Some? && root.target.value.Directory? && ValidTree(root.target.value)
    requires Safe(root.target.value) && LoadResult(h, parse, root).Err?
    ensures StrictlyOrdered(paths, PathBefore) && forall p :: p in paths <==> IsRuleFile(root.target.value, p)
    ensures FirstBadFile(h, parse, root.target.value, paths, k, LoadResult(h, parse, root).error)
  {
    hide LoadFile, IsRuleFile, IsHazard, LoadPaths, StopsAt, FirstBadFile, ValidTree;
    var tree := root.target.value;
    DiscoveryExact(tree);
    paths := DiscoveryResult(tree).value;
    assert paths[0..] == paths;
    k := LoadPathsStop(h, parse, tree, paths, 0, map[]);
    StopIsBadFile(h, parse, tree, paths, k, LoadResult(h, parse, root).error);
  }

  lemma LoadedIsGood(h: Host, parse: Parser, tree: Node, paths: seq<Path>, k: nat)
    requires k <= |paths| && LoadedTo(h, parse, tree, paths, k)
    ensures GoodTo(h, parse, tree, paths, k)
  {
    hide LoadFile, Declares, IdAt;
    forall j | 0 <= j < k ensures DeclaresRule(h, parse, tree, paths[j]) {
      DeclaredRule(h, parse, tree, paths[j]);
    }
    forall i, j, rule, other | 0 <= i < j < k
        && Declares(h, parse, tree, paths[i], rule) && Declares(h, parse, tree, paths[j], other)
      ensures rule.id != other.id
    {
      DeclaredRule(h, parse, tree, paths[i]);
      DeclaredRule(h, parse, tree, paths[j]);
      IdAtLoaded(h, parse, tree, paths[i]);
      IdAtLoaded(h, parse, tree, paths[j]);
    }
  }

  lemma StopIsBadFile(h: Host, parse: Parser, tree: Node, paths: seq<Path>, k: nat, error: LoaderError)
    requires ValidTree(tree) && Safe(tree) && forall p | p in paths :: IsRuleFile(tree, p)
    requires StopsAt(h, parse, tree, paths, k, error)
    ensures FirstBadFile(h, parse, tree, paths, k, error)
  {
    hide LoadFile, IsRuleFile, Declares, FailsWith, HoldsContent, Safe, ValidTree, Posix, GoodTo, LoadedTo;
    LoadedIsGood(h, parse, tree, paths, k);
    var last := LoadFile(h, parse, tree, paths[k]);
    if last.Err? {
      assert paths[k] in paths;
      var content := RuleFileIsReached(tree, paths[k]);
      LoadFileExact(h, parse, tree, paths[k]);
      var category :| FailsWith(h, parse, tree, paths[k], category);
    } else {
      var j :| RepeatsAt(h, parse, tree, paths, j, k, last.value.id, error);
      DeclaredRule(h, parse, tree, paths[j]);
      DeclaredRule(h, parse, tree, paths[k]);
      assert Repeats(h, parse, tree, paths[j], LoadFile(h, parse, tree, paths[j]).value, paths[k], last.value, error);
    }
  }

  /** A root that is refused before discovery. */
  lemma RootRefused(h: Host, parse: Parser, root: RootPath)
    ensures !root.absolute ==> LoadResult(h, parse, root) == Err(FileError(".", "absolute_root_required"))
    ensures root.absolute && (root.target.None? || !root.target.value.Directory?) ==>
      LoadResult(h, parse, root) == Err(FileError(".", "invalid_root"))
    ensures root.absolute && root.target.Some? && root.target.value.Directory? && DiscoveryResult(root.target.value).Err? ==>
      LoadResult(h, parse, root) == Err(DiscoveryResult(root.target.value).error)
  {
  }

  /** A loaded library is a set of valid, accepted rules with distinct identities. */
  lemma LoadedRulesAreSound(h: Host, parse: Parser, root: RootPath)
    requires root.target.Some? ==> ValidTree(root.target.value)
    requires LoadResult(h, parse, root).Ok?
    ensures forall rule | rule in LoadResult(h, parse, root).value :: ValidRule(h, rule) && RuleRejection(h, rule).None?
    ensures DistinctIds(LoadResult(h, parse, root).value)
  {
    hide LoadResult, LoadFile, ValidRule, RuleRejection, IsRuleFile, HoldsContent;
    LoadExact(h, parse, root);
    var rules, tree := LoadResult(h, parse, root).value, root.target.value;
    var paths :| InPathOrder(h, parse, tree, paths, rules);
    assert forall rule | rule in rules :: ValidRule(h, rule) && RuleRejection(h, rule).None?;
    PathsDiffer(paths);
    forall i, j | 0 <= i < j < |rules| ensures rules[i].id != rules[j].id {
      assert paths[i] in paths && paths[j] in paths;
      assert Declares(h, parse, tree, paths[i], rules[i]) && Declares(h, parse, tree, paths[j], rules[j]);
    }
  }

  /** End to end: on a loaded library the engine fails on a valid event only when a
      targeted rule compares a timestamp that has no UTC instant; otherwise it
      returns one match for exactly the rules that fire, in ascending rule ID. */
  lemma LoadedLibraryEvaluates(h: Host, parse: Parser, root: RootPath, event: Event)
    requires root.target.Some? ==> ValidTree(root.target.value)
    requires LoadResult(h, parse, root).Ok? && ValidEvent(event)
    ensures
      var rules := LoadResult(h, parse, root).value;
      && (EngineResult(h, event, rules).Err? <==>
            && !Representable(event.timestamp)
            && exists rule | rule in rules :: Targets(rule, event) && ComparesTimestamp(rule.condition))
      && (EngineResult(h, event, rules).Ok? ==> ExactMatches(h, event, rules, EngineResult(h, event, rules).value))
  {
    hide LoadResult, EngineResult, ValidRule, RuleRejection, Targets, ComparesTimestamp, ExactMatches;
    var rules := LoadResult(h, parse, root).value;
    LoadedRulesAreSound(h, parse, root);
    EngineFailure(h, event, rules);
    if EngineResult(h, event, rules).Ok? { EngineExact(h, event, rules); }
  }

  // ---- Enumeration order ----

  lemma {:induction false} WalkSame(a: Node, b: Node, path: Path)
    requires SameTree(a, b)
    ensures match (Walk(a, path), Walk(b, path))
      case (Ok(x), Ok(y)) => SameTree(x, y)
      case (Err(x), Err(y)) => x == y
      case _ => false
    decreases |path|
  {
    hide SameTree;
    SameTreeRoot(a, b);
    if path != [] && a.Directory? {
      SameTreeChild(a, b, path[0]);
      if Child(a, path[0]).Some? {
        WalkSame(Child(a, path[0]).value, Child(b, path[0]).value, path[1..]);
      }
    }
  }

  lemma LoadFileSame(h: Host, parse: Parser, a: Node, b: Node, path: Path)
    requires SameTree(a, b)
    ensures LoadFile(h, parse, a, path) == LoadFile(h, parse, b, path)
  {
    hide SameTree, ValidRule, RuleRejection;
    WalkSame(a, b, path);
    if Walk(a, path).Ok? { SameTreeRoot(Walk(a, path).value, Walk(b, path).value); }
  }

  lemma {:induction false} LoadPathsSame(h: Host, parse: Parser, a: Node, b: Node, paths: seq<Path>, ids: map<string, string>)
    requires SameTree(a, b)
    ensures LoadPaths(h, parse, a, paths, ids) == LoadPaths(h, parse, b, paths, ids)
    decreases |paths|
  {
    hide SameTree, LoadFile;
    if paths != [] {
      LoadFileSame(h, parse, a, b, paths[0]);
      var first := LoadFile(h, parse, a, paths[0]);
      if first.Ok? && first.value.id !in ids {
        LoadPathsSame(h, parse, a, b, paths[1..], ids[first.value.id := Posix(paths[0])]);
      }
    }
  }

  /** Loading, errors included, does not depend on directory enumeration order. */
  lemma LoadOrderIndependent(h: Host, parse: Parser, a: Node, b: Node)
    requires a.Directory? && b.Directory? && ValidTree(a) && ValidTree(b) && SameTree(a, b)
    ensures LoadResult(h, parse, RootPath(true, Some(a))) == LoadResult(h, parse, RootPath(true, Some(b)))
  {
    hide SameTree, LoadPaths;
    DiscoveryOrderIndependent(a, b);
    if DiscoveryResult(a).Ok? {
      LoadPathsSame(h, parse, a, b, DiscoveryResult(a).value, map[]);
    }
  }
}
