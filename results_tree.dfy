/**
 * Directory trees as the result parsers walk them. `os.walk` with hidden
 * subdirectories pruned (`dirs[:] = [x for x in dirs if not x.startswith(".")]`)
 * keeping the files with one exact name, and `Path.rglob(pattern)`, which
 * descends everywhere and matches files and directories alike. Entry order
 * inside a directory is whatever the tree lists.
 */
module ResultsTree {
  import opened Wrappers
  import opened Text
  import opened Sorting

  /** A directory: its name, the names of its non-directory entries, its subdirectories. */
  datatype Tree = Dir(name: string, files: seq<string>, subdirs: seq<Tree>)

  /** A discovered entry: the components of the directory holding it, and its name. */
  datatype Found = Found(dir: seq<string>, file: string)

  /**
   * How a traversal selects entries: `prune` skips hidden subdirectories,
   * `dirsToo` lets directory names match as well as file names.
   */
  datatype Search = Search(prune: bool, dirsToo: bool, matches: string -> bool)

  predicate Hidden(name: string) { StartsWith(name, ".") }

  /** `os.walk(top)` pruning hidden directories, keeping `Path(root) / name` when `name in files`. */
  function WalkFor(name: string): Search
  {
    Search(true, false, x => x == name)
  }

  /** `top.rglob(pattern)` for a pattern `*<suffix>`: every entry, hidden or not, whose name ends in the suffix. */
  function GlobSuffix(suffix: string): Search
  {
    Search(false, true, x => EndsWith(x, suffix))
  }

  /** The selected entries at and below `t`, whose own path has components `dir`. */
  function Find(t: Tree, dir: seq<string>, s: Search): seq<Found>
    decreases t, 1
  {
    FilesMatching(t.files, dir, s) + FindAll(t.subdirs, dir, s)
  }

  function FilesMatching(names: seq<string>, dir: seq<string>, s: Search): (r: seq<Found>)
    ensures forall f :: f in r <==> f.dir == dir && f.file in names && s.matches(f.file)
  {
    if names == [] then []
    else (if s.matches(names[0]) then [Found(dir, names[0])] else []) + FilesMatching(names[1..], dir, s)
  }

  function FindAll(ts: seq<Tree>, dir: seq<string>, s: Search): seq<Found>
    decreases ts, 0
  {
    if ts == [] then []
    else
      var t := ts[0];
      (if s.dirsToo && s.matches(t.name) then [Found(dir, t.name)] else [])
      + (if s.prune && Hidden(t.name) then [] else Find(t, dir + [t.name], s))
      + FindAll(ts[1..], dir, s)
  }

  /** The subdirectories of `t` that a search descends into, by name. */
  predicate Enters(t: Tree, k: int, s: Search)
  {
    0 <= k < |t.subdirs| && !(s.prune && Hidden(t.subdirs[k].name))
  }

  /**
   * The declarative reading: following the directory names `rel` down from
   * `t`, through subdirectories the search enters, reaches a directory with a
   * selected entry called `x`.
   */
  predicate Located(t: Tree, rel: seq<string>, x: string, s: Search)
    decreases |rel|
  {
    if rel == [] then
      s.matches(x) && (x in t.files || (s.dirsToo && exists k :: 0 <= k < |t.subdirs| && t.subdirs[k].name == x))
    else
      exists k :: 0 <= k < |t.subdirs| && Enters(t, k, s) && t.subdirs[k].name == rel[0] && Located(t.subdirs[k], rel[1..], x, s)
  }

  /** Everything found lies below the starting directory and is located there. */
  lemma {:induction false} FindSound(t: Tree, dir: seq<string>, s: Search, f: Found)
    requires f in Find(t, dir, s)
    ensures |dir| <= |f.dir| && f.dir[..|dir|] == dir && Located(t, f.dir[|dir|..], f.file, s)
    decreases t, 1
  {
    if f in FilesMatching(t.files, dir, s) {
      assert f.dir[|dir|..] == [];
    } else {
      var k := FindAllSound(t.subdirs, dir, s, f);
      if |f.dir| == |dir| {
        assert f.dir[..|dir|] == f.dir;
        assert f.dir[|dir|..] == [];
      } else {
        assert f.dir[|dir|..][1..] == f.dir[|dir| + 1..];
      }
    }
  }

  /**
   * What the loop over subdirectories finds: a matching subdirectory (found
   * with `dir` itself), or an entry located below an entered subdirectory `k`.
   */
  lemma {:induction false} FindAllSound(ts: seq<Tree>, dir: seq<string>, s: Search, f: Found) returns (k: nat)
    requires f in FindAll(ts, dir, s)
    ensures k < |ts| && |dir| <= |f.dir| && f.dir[..|dir|] == dir
    ensures |f.dir| == |dir| ==> s.dirsToo && s.matches(f.file) && ts[k].name == f.file
    ensures |f.dir| > |dir| ==>
      !(s.prune && Hidden(ts[k].name)) && f.dir[|dir|] == ts[k].name && Located(ts[k], f.dir[|dir| + 1..], f.file, s)
    decreases ts, 0
  {
    var t := ts[0];
    var here := if s.dirsToo && s.matches(t.name) then [Found(dir, t.name)] else [];
    var below := if s.prune && Hidden(t.name) then [] else Find(t, dir + [t.name], s);
    assert FindAll(ts, dir, s) == here + below + FindAll(ts[1..], dir, s);
    if f in here {
      k := 0;
    } else if f in below {
      k := 0;
      FoundBelow(t, dir, s, f);
    } else {
      var j := FindAllSound(ts[1..], dir, s, f);
      k := j + 1;
    }
  }

  /** What a search finds inside the child directory `t` of `dir` is located below `t`. */
  lemma {:induction false} FoundBelow(t: Tree, dir: seq<string>, s: Search, f: Found)
    requires f in Find(t, dir + [t.name], s)
    ensures |dir| < |f.dir| && f.dir[..|dir|] == dir && f.dir[|dir|] == t.name
    ensures Located(t, f.dir[|dir| + 1..], f.file, s)
    decreases t, 2
  {
    FindSound(t, dir + [t.name], s, f);
    BelowChild(dir, t.name, f.dir);
  }

  /** A path below the child `name` of `dir` lies below `dir`, one component further down. */
  lemma BelowChild(dir: seq<string>, name: string, p: seq<string>)
    requires |dir + [name]| <= |p| && p[..|dir| + 1] == dir + [name]
    ensures |dir| < |p| && p[..|dir|] == dir && p[|dir|] == name
    ensures p[|dir| + 1..] == p[|dir + [name]|..]
  {
    assert p[..|dir|] == p[..|dir| + 1][..|dir|];
  }

  /** Everything located is found. */
  lemma {:induction false} FindComplete(t: Tree, dir: seq<string>, s: Search, rel: seq<string>, x: string)
    requires Located(t, rel, x, s)
    ensures Found(dir + rel, x) in Find(t, dir, s)
    decreases t, 1
  {
    if rel == [] {
      assert dir + rel == dir;
      if x !in t.files {
        var k :| 0 <= k < |t.subdirs| && t.subdirs[k].name == x;
        FindAllHere(t.subdirs, dir, s, k);
      }
    } else {
      var k :| 0 <= k < |t.subdirs| && Enters(t, k, s) && t.subdirs[k].name == rel[0] && Located(t.subdirs[k], rel[1..], x, s);
      FindAllBelow(t.subdirs, dir, s, k, rel[1..], x);
      assert dir + [rel[0]] + rel[1..] == dir + rel;
    }
  }

  lemma {:induction false} FindAllHere(ts: seq<Tree>, dir: seq<string>, s: Search, k: nat)
    requires k < |ts| && s.dirsToo && s.matches(ts[k].name)
    ensures Found(dir, ts[k].name) in FindAll(ts, dir, s)
    decreases ts, 0
  {
    if k > 0 {
      FindAllHere(ts[1..], dir, s, k - 1);
    }
  }

  lemma {:induction false} FindAllBelow(ts: seq<Tree>, dir: seq<string>, s: Search, k: nat, rel: seq<string>, x: string)
    requires k < |ts| && !(s.prune && Hidden(ts[k].name)) && Located(ts[k], rel, x, s)
    ensures Found(dir + [ts[k].name] + rel, x) in FindAll(ts, dir, s)
    decreases ts, 0
  {
    if k == 0 {
      FindComplete(ts[0], dir + [ts[0].name], s, rel, x);
    } else {
      FindAllBelow(ts[1..], dir, s, k - 1, rel, x);
    }
  }

  /** An entry named `x` at `dir + rel` is found exactly when it is located at `rel` below `t`. */
  lemma FindExactly(t: Tree, dir: seq<string>, s: Search, rel: seq<string>, x: string)
    ensures Found(dir + rel, x) in Find(t, dir, s) <==> Located(t, rel, x, s)
  {
    if Found(dir + rel, x) in Find(t, dir, s) {
      FindSound(t, dir, s, Found(dir + rel, x));
      assert (dir + rel)[|dir|..] == rel;
    }
    if Located(t, rel, x, s) {
      FindComplete(t, dir, s, rel, x);
    }
  }

  // ---------- names of a found file ----------

  /** `p.parent.name`: the last directory component, or "" at the root. */
  function ParentName(f: Found): string
  {
    if |f.dir| >= 1 then f.dir[|f.dir| - 1] else ""
  }

  /** `p.parent.parent.name`: the directory component before that, or "". */
  function GrandparentName(f: Found): string
  {
    if |f.dir| >= 2 then f.dir[|f.dir| - 2] else ""
  }

  /** `str(p)`, the components of a path relative to the working directory joined by `/`. */
  function FoundPath(f: Found): string
  {
    Join(f.dir + [f.file], "/")
  }

  /** A directory on disk: the components of its path relative to the working directory, and its contents. */
  datatype Scope = Scope(dir: seq<string>, tree: Tree)

  /** The targets of several scope directories, one after the other. */
  function FindScopes(scopes: seq<Scope>, s: Search): seq<Found>
  {
    if scopes == [] then []
    else FindScopes(scopes[..|scopes| - 1], s) + Find(scopes[|scopes| - 1].tree, scopes[|scopes| - 1].dir, s)
  }

  /** `for d in scope_dirs: targets.extend(...)` */
  method CollectTargets(scopes: seq<Scope>, s: Search) returns (targets: seq<Found>)
    ensures targets == FindScopes(scopes, s)
  {
    targets := [];
    var i := 0;
    while i < |scopes|
      invariant i <= |scopes| && targets == FindScopes(scopes[..i], s)
    {
      assert scopes[..i + 1][..i] == scopes[..i];
      targets := targets + Find(scopes[i].tree, scopes[i].dir, s);
      i := i + 1;
    }
    assert scopes[..i] == scopes;
  }

  /** A target comes from some scope, where it is located. */
  lemma {:induction false} FindScopesSound(scopes: seq<Scope>, s: Search, f: Found) returns (i: nat)
    requires f in FindScopes(scopes, s)
    ensures i < |scopes| && var d := scopes[i].dir;
      |d| <= |f.dir| && f.dir[..|d|] == d && Located(scopes[i].tree, f.dir[|d|..], f.file, s)
  {
    var last := scopes[|scopes| - 1];
    if f in Find(last.tree, last.dir, s) {
      i := |scopes| - 1;
      FindSound(last.tree, last.dir, s, f);
    } else {
      i := FindScopesSound(scopes[..|scopes| - 1], s, f);
    }
  }

  /** Every entry located under a scope is a target. */
  lemma {:induction false} FindScopesComplete(scopes: seq<Scope>, s: Search, i: nat, rel: seq<string>, x: string)
    requires i < |scopes| && Located(scopes[i].tree, rel, x, s)
    ensures Found(scopes[i].dir + rel, x) in FindScopes(scopes, s)
  {
    if i == |scopes| - 1 {
      FindComplete(scopes[i].tree, scopes[i].dir, s, rel, x);
    } else {
      FindScopesComplete(scopes[..|scopes| - 1], s, i, rel, x);
    }
  }

  // ---------- the results folders offered ----------

  /** The entries `Path(".").glob("<prefix>*")` matches among the working folder's entry names. */
  function GlobPrefix(prefix: string): string -> bool
  {
    name => StartsWith(name, prefix)
  }

  /**
   * `find_candidates()`: `[d for d in sorted(Path(".").glob("Docking_Results_*")) if d.is_dir()]`
   * over the working folder's entry names and the set of those that are folders.
   */
  function FindCandidates(entries: seq<string>, dirs: set<string>): (r: seq<string>)
    ensures forall d :: d in r <==> d in entries && StartsWith(d, "Docking_Results_") && d in dirs
  {
    var globbed := Filter(entries, GlobPrefix("Docking_Results_"));
    var sorted := SortBy(globbed, LexLe);
    forall d ensures d in sorted <==> d in globbed {
      assert d in sorted <==> d in multiset(sorted);
    }
    forall d ensures d in globbed <==> d in entries && StartsWith(d, "Docking_Results_") {
      FilterMembers(entries, GlobPrefix("Docking_Results_"), d);
    }
    forall d ensures d in Filter(sorted, x => x in dirs) <==> d in sorted && d in dirs {
      FilterMembers(sorted, x => x in dirs, d);
    }
    Filter(sorted, x => x in dirs)
  }
}
