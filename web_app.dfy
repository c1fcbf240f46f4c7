/**
 * The web front end's workspace endpoints without the HTTP layer: the job
 * name, upload dispatch, the path check of the workspace file server, the
 * residue list offered for removal and the receptor clean-up. Routing,
 * login and request parsing are left out; the file system is replaced by
 * parameters (whether the workspace exists, the files found under it with
 * their modification times, a `read` oracle for file contents).
 */
module WebApp {
  import opened Wrappers
  import opened Text
  import opened Paths
  import opened PdbRecords

  /** An endpoint's answer: an error status with its message, or the JSON payload. */
  datatype Reply =
    | Error(status: nat, message: string)
    | ReceptorsZip(firstRel: Option<string>)
    | ReceptorFile(saved: string, ext: string, relpath: string)
    | LigandsZip(detect: string)
    | LigandFile(saved: string, detect: string)
    | CentersFile(saved: string)
    | Send(path: string)
    | Resnames(names: seq<string>)
    | Cleaned(outRel: string)

  // ---------- api_workspace ----------

  /** The job name: the timestamp, `-`, and the e-mail address up to its first `@`. */
  function JobName(stamp: string, email: string): (r: string)
    ensures StartsWith(r, stamp + "-") && '@' !in r[|stamp| + 1..]
  {
    stamp + "-" + Split(email, '@')[0]
  }

  /** The user part of `user@domain` follows the stamp; an address without `@` is taken whole. */
  lemma JobNameOfAddress(stamp: string, user: string, domain: string)
    requires '@' !in user
    ensures JobName(stamp, user + "@" + domain) == stamp + "-" + user
    ensures JobName(stamp, user) == stamp + "-" + user
  {
    SplitConcat(user, domain, '@');
    SplitPlain(user, '@');
  }

  // ---------- api_upload ----------

  /** `Path(name).suffix.lower().lstrip(".")` */
  function Extension(name: string): string
  {
    LStripSet(Lower(Suffix(name)), {'.'})
  }

  /** A name with a real suffix yields that suffix lower-cased, without its dot. */
  lemma ExtensionOf(base: string, ext: string)
    requires base != [] && ext != [] && '.' !in ext
    ensures Extension(base + "." + ext) == Lower(ext)
  {
    StemOfSuffixed(base, ext);
    LowerDotted(ext);
    DotlessLower(ext);
    LStripDot(Lower(ext));
  }

  lemma LowerDotted(ext: string)
    ensures Lower("." + ext) == "." + Lower(ext)
  {
    assert forall i :: 1 <= i < |ext| + 1 ==> ("." + ext)[i] == ext[i - 1];
  }

  lemma DotlessLower(ext: string)
    requires '.' !in ext
    ensures '.' !in Lower(ext)
  {
    forall i | 0 <= i < |ext|
      ensures Lower(ext)[i] != '.'
    {
      assert ext[i] in ext;
    }
  }

  lemma LStripDot(t: string)
    requires '.' !in t
    ensures LStripSet("." + t, {'.'}) == t
  {
    assert ("." + t)[1..] == t;
    if t != [] {
      assert t[0] in t;
    }
  }

  /** The upload kinds the endpoint knows. */
  const Kinds: set<string> := {"receptors", "receptors_file", "ligands", "ligands_file", "centers"}

  /** Some entry name matches `*<ext>`. */
  predicate AnyWith(names: seq<string>, ext: string)
  {
    exists i :: 0 <= i < |names| && EndsWith(names[i], ext)
  }

  /** How an unpacked ligand archive is read: SDF files first, then SMILES, then CSV, else a folder. */
  function Detect(names: seq<string>): (d: string)
    ensures d == "folder_sdf" <==> AnyWith(names, ".sdf")
    ensures d == "folder_smiles" <==> !AnyWith(names, ".sdf") && AnyWith(names, ".smiles")
    ensures d == "csv" <==> !AnyWith(names, ".sdf") && !AnyWith(names, ".smiles") && AnyWith(names, ".csv")
    ensures d == "folder" <==> !AnyWith(names, ".sdf") && !AnyWith(names, ".smiles") && !AnyWith(names, ".csv")
  {
    if AnyWith(names, ".sdf") then "folder_sdf"
    else if AnyWith(names, ".smiles") then "folder_smiles"
    else if AnyWith(names, ".csv") then "csv"
    else "folder"
  }

  /**
   * The receptor to show first after an archive upload: the first PDB file,
   * else the first PDBQT file (both lists sorted, relative to `Receptors`).
   */
  function FirstRel(pdbs: seq<string>, pdbqts: seq<string>): (r: Option<string>)
    ensures r.Some? <==> pdbs != [] || pdbqts != []
    ensures r.Some? ==> StartsWith(r.value, "Receptors/")
    ensures r.Some? ==> r.value[10..] == (if pdbs != [] then pdbs[0] else pdbqts[0])
  {
    if pdbs != [] then Some("Receptors/" + pdbs[0])
    else if pdbqts != [] then Some("Receptors/" + pdbqts[0])
    else None
  }

  /**
   * `api_upload`. `filename` is the uploaded file's name (None when no file
   * was sent); `pdbs`, `pdbqts` are the sorted receptor files after an archive
   * is unpacked and `ligNames` the entries under `Ligands` after one is.
   */
  function Upload(kind: Option<string>, wsExists: bool, filename: Option<string>,
                  pdbs: seq<string>, pdbqts: seq<string>, ligNames: seq<string>): (r: Reply)
  {
    if !wsExists then Error(400, "workspace missing")
    else if filename.None? || filename.value == "" then Error(400, "no file")
    else if kind == Some("receptors") then ReceptorsZip(FirstRel(pdbs, pdbqts))
    else if kind == Some("receptors_file") then
      var name := PathName(filename.value);
      ReceptorFile(name, Extension(name), "Receptors/" + name)
    else if kind == Some("ligands") then LigandsZip(Detect(ligNames))
    else if kind == Some("ligands_file") then
      var name := PathName(filename.value);
      LigandFile(name, "single_" + Extension(name))
    else if kind == Some("centers") then CentersFile("vina_centers.csv")
    else Error(400, "bad kind")
  }

  /**
   * An upload fails exactly when the workspace is missing, no file came or
   * the kind is unknown, and the checks run in that order.
   */
  lemma UploadRejects(kind: Option<string>, wsExists: bool, filename: Option<string>,
                      pdbs: seq<string>, pdbqts: seq<string>, ligNames: seq<string>)
    ensures var r := Upload(kind, wsExists, filename, pdbs, pdbqts, ligNames);
      r.Error? <==> !wsExists || filename.None? || filename.value == "" || kind.None? || kind.value !in Kinds
    ensures var r := Upload(kind, wsExists, filename, pdbs, pdbqts, ligNames);
      r.Error? ==> r.status == 400
    ensures var r := Upload(kind, wsExists, filename, pdbs, pdbqts, ligNames);
      r.Error? ==> r.message == (if !wsExists then "workspace missing"
                                 else if filename.None? || filename.value == "" then "no file"
                                 else "bad kind")
  {
    if kind.Some? && kind.value in Kinds {
      assert kind == Some("receptors") || kind == Some("receptors_file") || kind == Some("ligands")
        || kind == Some("ligands_file") || kind == Some("centers");
    }
  }

  /**
   * A single receptor sent as `folder/base.ext` is saved under its own name
   * in `Receptors`, and reported with the lower-cased extension.
   */
  lemma ReceptorFileNamed(folder: string, name: string, base: string, ext: string,
                          pdbs: seq<string>, pdbqts: seq<string>, ligNames: seq<string>)
    requires name == base + "." + ext && base != [] && ext != []
    requires '.' !in ext && '/' !in name
    ensures Upload(Some("receptors_file"), true, Some(folder + "/" + name), pdbs, pdbqts, ligNames)
         == ReceptorFile(name, Lower(ext), "Receptors/" + name)
  {
    assert name != "" && name != "." by { assert |name| >= 3; }
    PathNameOfChild(folder, name);
    ExtensionOf(base, ext);
    UploadReceptorFile(folder + "/" + name, pdbs, pdbqts, ligNames);
  }

  lemma UploadReceptorFile(filename: string, pdbs: seq<string>, pdbqts: seq<string>, ligNames: seq<string>)
    requires filename != ""
    ensures var name := PathName(filename);
      Upload(Some("receptors_file"), true, Some(filename), pdbs, pdbqts, ligNames)
      == ReceptorFile(name, Extension(name), "Receptors/" + name)
  {
    assert Some("receptors_file") != Some("receptors");
  }

  // ---------- api_wsfile ----------

  /**
   * `api_wsfile` as written: a path is served when its resolved form starts,
   * as a string, with the workspace path and names an existing file.
   */
  function WsFileAsWritten(jobname: string, rel: string, ws: string, resolved: string, files: set<string>): (r: Reply)
    ensures r.Send? <==> jobname != "" && rel != "" && StartsWith(resolved, ws) && resolved in files
    ensures r.Send? ==> r.path == resolved
  {
    if jobname == "" || rel == "" then Error(400, "missing")
    else if !StartsWith(resolved, ws) || resolved !in files then Error(404, "not found")
    else Send(resolved)
  }

  /** `p` is the workspace itself or lies below it. */
  predicate Inside(p: string, ws: string)
  {
    p == ws || StartsWith(p, ws + "/")
  }

  /** The file server confined to the workspace: the prefix must end at a path separator. */
  function WsFile(jobname: string, rel: string, ws: string, resolved: string, files: set<string>): (r: Reply)
    ensures r.Send? <==> jobname != "" && rel != "" && Inside(resolved, ws) && resolved in files
    ensures r.Send? ==> r.path == resolved
  {
    if jobname == "" || rel == "" then Error(400, "missing")
    else if !Inside(resolved, ws) || resolved !in files then Error(404, "not found")
    else Send(resolved)
  }

  /**
   * A file in a sibling workspace whose name extends this one's (`ws1` and
   * `ws10`) passes the string test as written, and is refused once the
   * prefix has to end at a separator.
   */
  lemma SiblingServedAsWritten(jobname: string, rel: string, ws: string, more: string, rest: string)
    requires jobname != "" && rel != "" && more != [] && more[0] != '/'
    ensures WsFileAsWritten(jobname, rel, ws, ws + more + rest, {ws + more + rest}) == Send(ws + more + rest)
    ensures WsFile(jobname, rel, ws, ws + more + rest, {ws + more + rest}).Error?
  {
    var p := ws + more + rest;
    assert p[..|ws|] == ws;
    assert p[|ws|] == more[0];
    assert !StartsWith(p, ws + "/") by {
      if |ws + "/"| <= |p| {
        assert p[..|ws| + 1][|ws|] == p[|ws|];
      }
    }
  }

  /** The confined server serves exactly what the string test serves inside the workspace. */
  lemma WsFileNarrower(jobname: string, rel: string, ws: string, resolved: string, files: set<string>)
    ensures WsFile(jobname, rel, ws, resolved, files)
         == (if Inside(resolved, ws) || WsFileAsWritten(jobname, rel, ws, resolved, files).Error?
             then WsFileAsWritten(jobname, rel, ws, resolved, files)
             else Error(404, "not found"))
  {
    if StartsWith(resolved, ws + "/") {
      assert resolved[..|ws|] == (ws + "/")[..|ws|];
    }
  }

  // ---------- api_list_residues ----------

  /** The residue name a line contributes to the list: that of an ATOM/HETATM line, when not standard. */
  function ResidueOf(line: string): Option<string>
  {
    if IsAtomLine(line) && ResName(line) !in Standard then Some(ResName(line)) else None
  }

  /** Every non-standard residue name found on ATOM/HETATM lines: the `res` set. */
  function NonStandard(lines: seq<string>): set<string>
  {
    Gather(ResidueOf, lines)
  }

  /**
   * A name is listed exactly when some ATOM/HETATM line carries it and it is
   * not standard; so no listed name is standard or holds a lower-case letter.
   */
  lemma NonStandardHas(lines: seq<string>, x: string)
    ensures x in NonStandard(lines) <==>
      exists i :: 0 <= i < |lines| && IsAtomLine(lines[i]) && ResName(lines[i]) == x && x !in Standard
    ensures x in NonStandard(lines) ==> x !in Standard && HasNoLower(x)
  {
    GatherFrom(ResidueOf, lines, x);
  }

  /** The loop over the file's lines that fills `res`. */
  method CollectResidues(lines: seq<string>) returns (res: set<string>)
    ensures res == NonStandard(lines)
  {
    res := {};
    var i := 0;
    while i < |lines|
      invariant i <= |lines|
      invariant res == Gather(ResidueOf, lines[..i])
    {
      GatherSnoc(ResidueOf, lines, i);
      var found := ResidueOf(lines[i]);
      if found.Some? {
        res := res + {found.value};
      }
      i := i + 1;
    }
    assert lines[..i] == lines;
  }

  /** A least element of a nonempty set of names in Python's string order. */
  lemma {:induction false} Least(s: set<string>) returns (m: string)
    requires s != {}
    ensures m in s && forall x :: x in s ==> LexLe(m, x)
    decreases |s|
  {
    var y :| y in s;
    if s == {y} {
      m := y;
    } else {
      var m' := Least(s - {y});
      if LexLt(y, m') {
        m := y;
        forall x | x in s
          ensures LexLe(m, x)
        {
          if x != y {
            assert x in s - {y};
            if m' != x {
              LexLtTransitive(y, m', x);
            }
          }
        }
      } else {
        m := m';
        if m' != y {
          LexLtTotal(m', y);
        }
      }
    }
  }

  /** `sorted(res)`: the names in increasing order, each once. */
  method SortNames(res: set<string>) returns (names: seq<string>)
    ensures forall x :: x in names <==> x in res
    ensures forall i, j :: 0 <= i < j < |names| ==> LexLt(names[i], names[j])
  {
    names := [];
    var rest := res;
    while rest != {}
      invariant forall x :: x in res <==> x in rest || x in names
      invariant forall i, j :: 0 <= i < j < |names| ==> LexLt(names[i], names[j])
      invariant forall i, x :: 0 <= i < |names| && x in rest ==> LexLt(names[i], x)
      decreases |rest|
    {
      ghost var least := Least(rest);
      var m :| m in rest && forall x :: x in rest ==> LexLe(m, x);
      forall i | 0 <= i < |names|
        ensures LexLt(names[i], m)
      {
      }
      names := names + [m];
      rest := rest - {m};
      forall i, x | 0 <= i < |names| && x in rest
        ensures LexLt(names[i], x)
      {
        if i == |names| - 1 {
          assert LexLe(m, x) && x != m;
        }
      }
    }
  }

  /**
   * The candidate a stable sort by modification time, newest first, puts
   * first: the earliest of the newest files.
   */
  function Latest(c: seq<(string, int)>): (i: nat)
    requires c != []
    ensures i < |c|
    ensures forall j :: 0 <= j < |c| ==> c[j].1 <= c[i].1
    ensures forall j :: 0 <= j < i ==> c[j].1 < c[i].1
  {
    if |c| == 1 then 0
    else
      var j := 1 + Latest(c[1..]);
      assert forall k :: 1 <= k < |c| ==> c[k] == c[1..][k - 1];
      if c[0].1 >= c[j].1 then 0 else j
  }

  /** The files under `Receptors` (with their modification times) whose name matches `*<ext>`. */
  function Matching(tree: seq<(string, int)>, ext: string): seq<(string, int)>
  {
    Filter(tree, (f: (string, int)) => EndsWith(PathName(f.0), ext))
  }

  /** `f` is a file of the tree named `*<ext>`, and no such file is newer. */
  predicate NewestOf(tree: seq<(string, int)>, ext: string, f: (string, int))
  {
    && f in tree
    && EndsWith(PathName(f.0), ext)
    && forall g :: g in Matching(tree, ext) ==> g.1 <= f.1
  }

  /** The first file of a newest-first sort is a newest match. */
  lemma LatestIsNewest(tree: seq<(string, int)>, ext: string)
    requires Matching(tree, ext) != []
    ensures NewestOf(tree, ext, Matching(tree, ext)[Latest(Matching(tree, ext))])
  {
    var c := Matching(tree, ext);
    var f := c[Latest(c)];
    FilterMembers(tree, (f: (string, int)) => EndsWith(PathName(f.0), ext), f);
  }

  /** The file the residue list reads: the newest cleaned PDB, else the newest PDB. */
  function ResidueSource(tree: seq<(string, int)>): (src: Option<string>)
    ensures src.None? <==> Matching(tree, ".pdb") == []
    ensures src.Some? ==>
      exists f: (string, int) ::
        && f.0 == src.value
        && (if Matching(tree, ".cleaned.pdb") != [] then NewestOf(tree, ".cleaned.pdb", f) else NewestOf(tree, ".pdb", f))
  {
    var cleaned := Matching(tree, ".cleaned.pdb");
    var pdbs := Matching(tree, ".pdb");
    if cleaned != [] then
      assert cleaned[0] in tree && EndsWith(PathName(cleaned[0].0), ".cleaned.pdb") by {
        FilterMembers(tree, (f: (string, int)) => EndsWith(PathName(f.0), ".cleaned.pdb"), cleaned[0]);
      }
      CleanedIsPdb(PathName(cleaned[0].0));
      FilterMembers(tree, (f: (string, int)) => EndsWith(PathName(f.0), ".pdb"), cleaned[0]);
      LatestIsNewest(tree, ".cleaned.pdb");
      Some(cleaned[Latest(cleaned)].0)
    else if pdbs != [] then
      LatestIsNewest(tree, ".pdb");
      Some(pdbs[Latest(pdbs)].0)
    else None
  }

  lemma CleanedIsPdb(name: string)
    requires EndsWith(name, ".cleaned.pdb")
    ensures EndsWith(name, ".pdb")
  {
    assert name[|name| - 4..] == name[|name| - 12..][8..];
  }

  /**
   * `api_list_residues`: the sorted distinct non-standard residue names of
   * the source file, or an empty list when the workspace has no PDB file.
   */
  method ListResidues(wsExists: bool, tree: seq<(string, int)>, read: string -> seq<string>) returns (r: Reply)
    ensures !wsExists ==> r == Error(400, "workspace missing")
    ensures wsExists && ResidueSource(tree).None? ==> r == Resnames([])
    ensures wsExists && ResidueSource(tree).Some? ==>
      r.Resnames? && forall x :: x in r.names <==> x in NonStandard(read(ResidueSource(tree).value))
    ensures r.Resnames? ==> forall i, j :: 0 <= i < j < |r.names| ==> LexLt(r.names[i], r.names[j])
  {
    if !wsExists {
      return Error(400, "workspace missing");
    }
    var src := ResidueSource(tree);
    if src.None? {
      return Resnames([]);
    }
    var res := CollectResidues(read(src.value));
    var names := SortNames(res);
    r := Resnames(names);
  }

  // ---------- api_clean_receptor ----------

  /** A line the clean-up writes: any non-coordinate line, a standard residue, or one the user keeps. */
  function Kept(keep: set<string>): string -> bool
  {
    line => !IsAtomLine(line) || ResName(line) in Standard || ResName(line) in keep
  }

  /** A line survives exactly when it was in the file and passes the residue test. */
  lemma CleanKeeps(lines: seq<string>, keep: set<string>, line: string)
    ensures line in Filter(lines, Kept(keep)) <==>
      line in lines && (!IsAtomLine(line) || ResName(line) in Standard || ResName(line) in keep)
  {
    FilterMembers(lines, Kept(keep), line);
  }

  /** Cleaning a cleaned file again with the same keep set changes nothing. */
  lemma CleanIdempotent(lines: seq<string>, keep: set<string>)
    ensures Filter(Filter(lines, Kept(keep)), Kept(keep)) == Filter(lines, Kept(keep))
  {
    FilterIdempotent(lines, Kept(keep));
  }

  /** Cleaning works line by line: the cleaned halves of a file make up the cleaned file, in order. */
  lemma CleanInOrder(a: seq<string>, b: seq<string>, keep: set<string>)
    ensures Filter(a + b, Kept(keep)) == Filter(a, Kept(keep)) + Filter(b, Kept(keep))
  {
    FilterConcat(a, b, Kept(keep));
  }

  /** A keep entry holding a lower-case letter never matches an (upper-cased) residue name. */
  lemma LowercaseEntryIgnored(lines: seq<string>, keep: set<string>, entry: string)
    requires !HasNoLower(entry)
    ensures Filter(lines, Kept(keep + {entry})) == Filter(lines, Kept(keep))
  {
    forall i | 0 <= i < |lines|
      ensures Kept(keep + {entry})(lines[i]) == Kept(keep)(lines[i])
    {
      assert ResName(lines[i]) != entry;
    }
    FilterAgree(lines, Kept(keep + {entry}), Kept(keep));
  }

  /** Keeping every residue the list endpoint offers for this file gives the file back unchanged. */
  lemma KeepAllListed(lines: seq<string>, keep: set<string>)
    requires NonStandard(lines) <= keep
    ensures Filter(lines, Kept(keep)) == lines
  {
    forall i | 0 <= i < |lines|
      ensures Kept(keep)(lines[i])
    {
      if IsAtomLine(lines[i]) && ResName(lines[i]) !in Standard {
        NonStandardHas(lines, ResName(lines[i]));
      }
    }
    FilterAll(lines, Kept(keep));
  }

  /** The newest PDB file under `Receptors`, which the clean-up rewrites. */
  function CleanSource(tree: seq<(string, int)>): (src: Option<string>)
    ensures src.Some? <==> Matching(tree, ".pdb") != []
    ensures src.Some? ==> exists f: (string, int) :: f.0 == src.value && NewestOf(tree, ".pdb", f)
  {
    var pdbs := Matching(tree, ".pdb");
    if pdbs != [] then
      LatestIsNewest(tree, ".pdb");
      Some(pdbs[Latest(pdbs)].0)
    else None
  }

  /** The clean-up's output name: the source's stem with `.cleaned.pdb`. */
  function CleanedName(src: string): string
  {
    Stem(PathName(src)) + ".cleaned.pdb"
  }

  /**
   * `api_clean_receptor`: the lines written to `Receptors/<stem>.cleaned.pdb`
   * are the source's lines that pass the residue test, in order.
   */
  method CleanReceptor(wsExists: bool, recDir: string, tree: seq<(string, int)>, read: string -> seq<string>,
                       keep: set<string>) returns (r: Reply, out: string, written: seq<string>)
    ensures !wsExists ==> r == Error(400, "workspace missing") && written == []
    ensures wsExists && CleanSource(tree).None? ==> r == Error(400, "no pdb") && written == []
    ensures wsExists && CleanSource(tree).Some? ==>
      var src := CleanSource(tree).value;
      && out == JoinPath(recDir, CleanedName(src))
      && written == Filter(read(src), Kept(keep))
      && r == Cleaned("Receptors/" + CleanedName(src))
  {
    out := "";
    written := [];
    if !wsExists {
      return Error(400, "workspace missing"), out, written;
    }
    var src := CleanSource(tree);
    if src.None? {
      return Error(400, "no pdb"), out, written;
    }
    var name := CleanedName(src.value);
    out := JoinPath(recDir, name);
    written := StreamKept(read(src.value), Kept(keep));
    r := Cleaned("Receptors/" + name);
  }
}
