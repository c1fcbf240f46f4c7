/**
 * The ligand splitter: a multi-record SDF becomes one file per readable
 * record in a fresh `Ligand_<TAG>` directory, with a manifest. Reading the
 * SDF is an oracle (a sequence of records, `None` when the file cannot be
 * opened) and the filesystem is a set of existing paths.
 */
module LigDirect {
  import opened Wrappers
  import opened Text
  import opened Paths
  import opened Sanitize

  // ---------- next_unique_path ----------

  /** `base.with_name(f"{base.name}_{k}")`: the suffix goes after the whole name, extension included. */
  function Candidate(base: string, k: nat): string
  {
    base + "_" + NatToString(k)
  }

  /** Different counters give different candidates. */
  lemma CandidateInjective(base: string, j: nat, k: nat)
    requires Candidate(base, j) == Candidate(base, k)
    ensures j == k
  {
    var p := base + "_";
    assert Candidate(base, j)[|p|..] == NatToString(j);
    assert Candidate(base, k)[|p|..] == NatToString(k);
    NatToStringInjective(j, k);
  }

  /** `base` itself, or a candidate with a counter from 1 on. */
  ghost predicate NamedAfter(r: string, base: string)
  {
    r == base || exists k: nat :: 1 <= k && r == Candidate(base, k)
  }

  /**
   * Returns `base` when it does not exist; otherwise tries `base_1`,
   * `base_2`, ... and returns the first that does not exist.
   */
  method NextUniquePath(base: string, existing: set<string>) returns (r: string)
    ensures r !in existing
    ensures base !in existing ==> r == base
    ensures base in existing ==>
      exists k: nat :: 1 <= k && r == Candidate(base, k) && forall j: nat :: 1 <= j < k ==> Candidate(base, j) in existing
  {
    if base !in existing {
      return base;
    }
    var k: nat := 1;
    ghost var tried: set<string> := {};
    while Candidate(base, k) in existing
      invariant 1 <= k
      invariant tried == set j: nat | 1 <= j < k :: Candidate(base, j)
      invariant tried <= existing
      invariant |tried| == k - 1
      decreases |existing| - |tried|
    {
      assert Candidate(base, k) !in tried by {
        if Candidate(base, k) in tried {
          var j: nat :| 1 <= j < k && Candidate(base, j) == Candidate(base, k);
          CandidateInjective(base, j, k);
        }
      }
      tried := tried + {Candidate(base, k)};
      k := k + 1;
      assert tried == set j: nat | 1 <= j < k :: Candidate(base, j);
      SubsetSize(tried, existing);
    }
    r := Candidate(base, k);
  }

  lemma SubsetSize<T>(a: set<T>, b: set<T>)
    requires a <= b
    ensures |a| <= |b|
  {
    assert b == a + (b - a);
  }

  // ---------- split_sdf ----------

  /** What the SDF reader yields per record: nothing for an unreadable one, else the `_Name` property if present. */
  datatype Record = Unreadable | Molecule(name: Option<string>)

  /** The naming of one written record. */
  datatype Entry = Entry(index: nat, origName: string, stem: string)

  /** One manifest row: `[i, orig_name, out_path.name]`. */
  datatype ManifestRow = ManifestRow(index: nat, origName: string, outputFile: string)

  /** `f"{prefix}{i:0{pad}d}_{base_name}"` */
  function FileStem(prefix: string, i: nat, pad: nat, baseName: string): string
  {
    prefix + ZeroPad(i, pad) + "_" + baseName
  }

  /**
   * The naming of record `i`: the original name is `_Name` or `mol_<padded i>`;
   * the base name is the sanitised original with `--keep-names`, else `mol_<padded i>`.
   */
  function EntryFor(i: nat, name: Option<string>, prefix: string, pad: nat, keepNames: bool): (e: Entry)
    ensures e.index == i
  {
    var orig := if name.Some? then name.value else "mol_" + ZeroPad(i, pad);
    var baseName := if keepNames then SanitizeMol(orig) else "mol_" + ZeroPad(i, pad);
    Entry(i, orig, FileStem(prefix, i, pad, baseName))
  }

  /** The stem of an entry is a file stem for its own index. */
  lemma EntryStem(i: nat, name: Option<string>, prefix: string, pad: nat, keepNames: bool) returns (baseName: string)
    ensures EntryFor(i, name, prefix, pad, keepNames).stem == FileStem(prefix, i, pad, baseName)
  {
    var orig := if name.Some? then name.value else "mol_" + ZeroPad(i, pad);
    baseName := if keepNames then SanitizeMol(orig) else "mol_" + ZeroPad(i, pad);
  }

  /** The readable records with their 1-based positions among all records. */
  function Written(records: seq<Record>): (w: seq<(nat, Option<string>)>)
    ensures |w| <= |records|
  {
    if records == [] then []
    else
      var last := records[|records| - 1];
      Written(records[..|records| - 1]) + (if last.Molecule? then [(|records|, last.name)] else [])
  }

  /**
   * Indices count every record, skipped ones included: they lie in 1..|records|,
   * strictly increase, and each names a readable record with its `_Name`.
   */
  lemma {:induction false} WrittenIndices(records: seq<Record>)
    ensures forall j :: 0 <= j < |Written(records)| ==> 1 <= Written(records)[j].0 <= |records|
    ensures forall j :: 0 <= j < |Written(records)| ==> records[Written(records)[j].0 - 1] == Molecule(Written(records)[j].1)
    ensures forall j, l :: 0 <= j < l < |Written(records)| ==> Written(records)[j].0 < Written(records)[l].0
  {
    if records != [] {
      var init := records[..|records| - 1];
      var last := records[|records| - 1];
      WrittenIndices(init);
      var w0 := Written(init);
      var w := Written(records);
      assert w == w0 + (if last.Molecule? then [(|records|, last.name)] else []);
      forall j | 0 <= j < |w0|
        ensures 1 <= w[j].0 <= |records| && records[w[j].0 - 1] == Molecule(w[j].1)
      {
        assert w[j] == w0[j];
        assert records[w0[j].0 - 1] == init[w0[j].0 - 1];
      }
    }
  }

  /** Every readable record is written: the numbering has gaps exactly at the unreadable records. */
  lemma {:induction false} WrittenComplete(records: seq<Record>, i: nat)
    requires 1 <= i <= |records| && records[i - 1].Molecule?
    ensures exists j :: 0 <= j < |Written(records)| && Written(records)[j].0 == i
  {
    var w := Written(records);
    if i == |records| {
      assert w[|w| - 1].0 == i;
    } else {
      var init := records[..|records| - 1];
      WrittenComplete(init, i);
      var j :| 0 <= j < |Written(init)| && Written(init)[j].0 == i;
      assert w[j].0 == i;
    }
  }

  /** The count returned is at most the last index used, since indices start at 1 and strictly increase. */
  lemma CountAtMostLastIndex(records: seq<Record>)
    ensures var w := Written(records);
      w != [] ==> |w| <= w[|w| - 1].0 <= |records|
  {
    var w := Written(records);
    WrittenIndices(records);
    if w != [] {
      IncreasingFromOne(w);
    }
  }

  lemma {:induction false} IncreasingFromOne(w: seq<(nat, Option<string>)>)
    requires w != []
    requires forall j :: 0 <= j < |w| ==> 1 <= w[j].0
    requires forall j, l :: 0 <= j < l < |w| ==> w[j].0 < w[l].0
    ensures |w| <= w[|w| - 1].0
  {
    if |w| > 1 {
      IncreasingFromOne(w[..|w| - 1]);
      assert w[..|w| - 1][|w| - 2] == w[|w| - 2];
    }
  }

  /** A digit run ending at an underscore is determined by the text. */
  lemma DigitRun(d1: string, d2: string, b1: string, b2: string)
    requires IsDigits(d1) && IsDigits(d2)
    requires d1 + "_" + b1 == d2 + "_" + b2
    ensures d1 == d2
  {
    var t := d1 + "_" + b1;
    assert t[..|d1|] == d1 && t[|d1|] == '_';
    assert t[..|d2|] == d2 && t[|d2|] == '_';
    assert '_' !in d1 && '_' !in d2;
    IndexOfIs(t, '_', |d1|);
    IndexOfIs(t, '_', |d2|);
  }

  /** Stems of different records differ: the padded index is a digit run that ends at the `_`. */
  lemma FileStemInjective(prefix: string, i: nat, j: nat, pad: nat, b1: string, b2: string)
    requires FileStem(prefix, i, pad, b1) == FileStem(prefix, j, pad, b2)
    ensures i == j
  {
    var d1 := ZeroPad(i, pad);
    var d2 := ZeroPad(j, pad);
    var s := FileStem(prefix, i, pad, b1);
    assert s == prefix + (d1 + "_" + b1);
    assert s == prefix + (d2 + "_" + b2);
    assert s[|prefix|..] == d1 + "_" + b1;
    assert s[|prefix|..] == d2 + "_" + b2;
    DigitRun(d1, d2, b1, b2);
    ZeroPadValue(i, pad);
    ZeroPadValue(j, pad);
  }

  /** Within one run no two records get the same file name. */
  lemma EntryNamesDistinct(i: nat, j: nat, n1: Option<string>, n2: Option<string>, prefix: string, pad: nat, keepNames: bool)
    requires i != j
    ensures EntryFor(i, n1, prefix, pad, keepNames).stem + ".sdf" != EntryFor(j, n2, prefix, pad, keepNames).stem + ".sdf"
  {
    var s1 := EntryFor(i, n1, prefix, pad, keepNames).stem;
    var s2 := EntryFor(j, n2, prefix, pad, keepNames).stem;
    if s1 + ".sdf" == s2 + ".sdf" {
      assert (s1 + ".sdf")[..|s1|] == s1;
      assert (s2 + ".sdf")[..|s2|] == s2;
      var b1 := EntryStem(i, n1, prefix, pad, keepNames);
      var b2 := EntryStem(j, n2, prefix, pad, keepNames);
      FileStemInjective(prefix, i, j, pad, b1, b2);
    }
  }

  /** The naming of `split_sdf` for one choice of prefix, padding and `--keep-names`. */
  function Naming(prefix: string, pad: nat, keepNames: bool): (nat, Option<string>) -> Entry
  {
    (i: nat, name: Option<string>) => EntryFor(i, name, prefix, pad, keepNames)
  }

  /** Records at different positions get different file names. */
  ghost predicate DistinctNames(naming: (nat, Option<string>) -> Entry)
  {
    forall i: nat, j: nat, a, b :: i != j ==> naming(i, a).stem + ".sdf" != naming(j, b).stem + ".sdf"
  }

  lemma NamingDistinct(prefix: string, pad: nat, keepNames: bool)
    ensures DistinctNames(Naming(prefix, pad, keepNames))
  {
    forall i: nat, j: nat, a, b | i != j
      ensures Naming(prefix, pad, keepNames)(i, a).stem + ".sdf" != Naming(prefix, pad, keepNames)(j, b).stem + ".sdf"
    {
      EntryNamesDistinct(i, j, a, b, prefix, pad, keepNames);
    }
  }

  /** The manifest rows follow the written records in order, each file named after its entry's stem. */
  ghost predicate RowsFollow(rows: seq<ManifestRow>, w: seq<(nat, Option<string>)>, naming: (nat, Option<string>) -> Entry)
  {
    && |rows| == |w|
    && forall j :: 0 <= j < |rows| ==>
        rows[j].index == w[j].0 && rows[j].origName == naming(w[j].0, w[j].1).origName
        && NamedAfter(rows[j].outputFile, naming(w[j].0, w[j].1).stem + ".sdf")
  }

  /** Every file is exactly its stem with `.sdf`. */
  ghost predicate ExactNames(rows: seq<ManifestRow>, w: seq<(nat, Option<string>)>, naming: (nat, Option<string>) -> Entry)
    requires |rows| == |w|
  {
    forall j :: 0 <= j < |rows| ==> rows[j].outputFile == naming(w[j].0, w[j].1).stem + ".sdf"
  }

  /** The files named in the manifest rows. */
  function Outputs(rows: seq<ManifestRow>): set<string>
  {
    if rows == [] then {} else Outputs(rows[..|rows| - 1]) + {rows[|rows| - 1].outputFile}
  }

  lemma {:induction false} OutputsContain(rows: seq<ManifestRow>)
    ensures forall j :: 0 <= j < |rows| ==> rows[j].outputFile in Outputs(rows)
  {
    if rows != [] {
      var init := rows[..|rows| - 1];
      OutputsContain(init);
      assert forall j :: 0 <= j < |init| ==> rows[j] == init[j];
    }
  }

  lemma {:induction false} NotInOutputs(rows: seq<ManifestRow>, f: string)
    requires forall j :: 0 <= j < |rows| ==> rows[j].outputFile != f
    ensures f !in Outputs(rows)
  {
    if rows != [] {
      var init := rows[..|rows| - 1];
      assert forall j :: 0 <= j < |init| ==> rows[j] == init[j];
      NotInOutputs(init, f);
    }
  }

  /** A name in an empty directory, so far holding only the earlier records' files, is still free. */
  lemma FreshInEmpty(rows: seq<ManifestRow>, w: seq<(nat, Option<string>)>, i: nat, name: Option<string>,
                     naming: (nat, Option<string>) -> Entry)
    requires |rows| == |w| && ExactNames(rows, w, naming) && DistinctNames(naming)
    requires forall j :: 0 <= j < |w| ==> w[j].0 < i
    ensures naming(i, name).stem + ".sdf" !in Outputs(rows)
  {
    var out := naming(i, name).stem + ".sdf";
    forall j | 0 <= j < |rows|
      ensures rows[j].outputFile != out
    {
      assert rows[j].outputFile == naming(w[j].0, w[j].1).stem + ".sdf";
    }
    NotInOutputs(rows, out);
  }

  lemma WrittenStep(recs: seq<Record>, i: nat)
    requires i < |recs|
    ensures Written(recs[..i + 1]) == Written(recs[..i]) + (if recs[i].Molecule? then [(i + 1, recs[i].name)] else [])
  {
    assert recs[..i + 1][..i] == recs[..i];
  }

  /** Writing one more record's file keeps every promise of the loop. */
  lemma RowAppended(rows: seq<ManifestRow>, w: seq<(nat, Option<string>)>, existing: set<string>, files: set<string>,
                    naming: (nat, Option<string>) -> Entry, i: nat, name: Option<string>, out: string)
    requires RowsFollow(rows, w, naming)
    requires forall j :: 0 <= j < |rows| ==> rows[j].outputFile !in existing
    requires forall j, l :: 0 <= j < l < |rows| ==> rows[j].outputFile != rows[l].outputFile
    requires files == existing + Outputs(rows)
    requires existing == {} && DistinctNames(naming) ==> ExactNames(rows, w, naming)
    requires out !in files && NamedAfter(out, naming(i, name).stem + ".sdf")
    requires existing == {} && DistinctNames(naming) ==> out == naming(i, name).stem + ".sdf"
    ensures var rows' := rows + [ManifestRow(i, naming(i, name).origName, out)];
      var w' := w + [(i, name)];
      && RowsFollow(rows', w', naming)
      && (forall j :: 0 <= j < |rows'| ==> rows'[j].outputFile !in existing)
      && (forall j, l :: 0 <= j < l < |rows'| ==> rows'[j].outputFile != rows'[l].outputFile)
      && files + {out} == existing + Outputs(rows')
      && (existing == {} && DistinctNames(naming) ==> ExactNames(rows', w', naming))
  {
    var row := ManifestRow(i, naming(i, name).origName, out);
    OutputsContain(rows);
    assert (rows + [row])[..|rows|] == rows;
  }

  /** `out_path`, or its next unique variant when it already exists. */
  method Place(name: string, files: set<string>) returns (out: string)
    ensures out !in files && NamedAfter(out, name)
    ensures name !in files ==> out == name
  {
    if name in files {
      out := NextUniquePath(name, files);
    } else {
      out := name;
    }
  }

  /**
   * The loop of `split_sdf` for any naming: one row and one new file per
   * readable record. No two rows share a file and no existing file is
   * overwritten; in an empty directory, with names that never repeat, every
   * file is exactly `<stem>.sdf`.
   */
  method WriteRecords(recs: seq<Record>, existing: set<string>, naming: (nat, Option<string>) -> Entry)
    returns (rows: seq<ManifestRow>, files: set<string>)
    ensures |rows| == |Written(recs)|
    ensures RowsFollow(rows, Written(recs), naming)
    ensures forall j :: 0 <= j < |rows| ==> rows[j].outputFile !in existing
    ensures forall j, l :: 0 <= j < l < |rows| ==> rows[j].outputFile != rows[l].outputFile
    ensures files == existing + Outputs(rows)
    ensures existing == {} && DistinctNames(naming) ==> ExactNames(rows, Written(recs), naming)
  {
    rows := [];
    files := existing;
    for i := 0 to |recs|
      invariant |rows| == |Written(recs[..i])|
      invariant RowsFollow(rows, Written(recs[..i]), naming)
      invariant forall j :: 0 <= j < |rows| ==> rows[j].outputFile !in existing
      invariant forall j, l :: 0 <= j < l < |rows| ==> rows[j].outputFile != rows[l].outputFile
      invariant files == existing + Outputs(rows)
      invariant existing == {} && DistinctNames(naming) ==> ExactNames(rows, Written(recs[..i]), naming)
    {
      ghost var w := Written(recs[..i]);
      WrittenStep(recs, i);
      if recs[i].Molecule? {
        var e := naming(i + 1, recs[i].name);
        if existing == {} && DistinctNames(naming) {
          WrittenIndices(recs[..i]);
          FreshInEmpty(rows, w, i + 1, recs[i].name, naming);
        }
        var out := Place(e.stem + ".sdf", files);
        var row := ManifestRow(i + 1, e.origName, out);
        RowAppended(rows, w, existing, files, naming, i + 1, recs[i].name, out);
        rows := rows + [row];
        files := files + {out};
      }
    }
    assert recs[..|recs|] == recs;
  }

  /**
   * `split_sdf`: `None` records (the SDF cannot be read) write nothing and
   * return 0; otherwise the count is the number of readable records and the
   * manifest has one row per written file.
   */
  method SplitSdf(records: Option<seq<Record>>, existing: set<string>, prefix: string, pad: nat, keepNames: bool)
    returns (n: nat, manifest: Option<seq<ManifestRow>>, files: set<string>)
    ensures records.None? ==> n == 0 && manifest.None? && files == existing
    ensures records.Some? ==> (
      && manifest.Some?
      && n == |manifest.value| == |Written(records.value)|
      && RowsFollow(manifest.value, Written(records.value), Naming(prefix, pad, keepNames))
      && (forall j :: 0 <= j < n ==> manifest.value[j].outputFile !in existing)
      && (forall j, l :: 0 <= j < l < n ==> manifest.value[j].outputFile != manifest.value[l].outputFile)
      && files == existing + Outputs(manifest.value))
    ensures records.Some? && existing == {} ==> ExactNames(manifest.value, Written(records.value), Naming(prefix, pad, keepNames))
  {
    if records.None? {
      return 0, None, existing;
    }
    NamingDistinct(prefix, pad, keepNames);
    var rows;
    rows, files := WriteRecords(records.value, existing, Naming(prefix, pad, keepNames));
    n := |rows|;
    manifest := Some(rows);
  }

  // ---------- main ----------

  /** `Path(name).name` with one trailing suffix removed. */
  function OutDirName(name: string): (r: string)
    ensures '/' !in r
  {
    Stem(PathName(name))
  }

  /** Only the last component counts: `x/Ligand_CPD1` names `Ligand_CPD1`. */
  lemma OutDirNameOfChild(dir: string, name: string)
    requires name != "" && name != "." && '/' !in name
    ensures OutDirName(dir + "/" + name) == OutDirName(name)
  {
    PathNameOfChild(dir, name);
    PathNameOfName(name);
  }

  /** One trailing suffix goes: `Ligand_1.5` becomes `Ligand_1`. */
  lemma OutDirNameDropsSuffix(base: string, ext: string)
    requires base != [] && base != "." && '/' !in base && ext != [] && '.' !in ext && '/' !in ext
    ensures OutDirName(base + "." + ext) == base
  {
    var n := base + "." + ext;
    assert '/' !in n by {
      assert forall i :: 0 <= i < |n| ==> n[i] == (if i < |base| then base[i] else if i == |base| then '.' else ext[i - |base| - 1]);
    }
    assert n != "." by {
      assert |n| >= 3;
    }
    PathNameOfName(n);
    StemOfSuffixed(base, ext);
  }

  /** Exit codes of the splitter. */
  datatype Outcome = Exit(code: int) | Done(outdir: string, count: nat, manifest: seq<ManifestRow>)

  /** `--outdir`, else `Ligand_<--name>`, else `Ligand_<typed tag>`; an empty tag is exit 2. */
  function OutDirArg(outdir: Option<string>, name: Option<string>, typed: string): (r: Result<string, int>)
    ensures r.Err? <==> (outdir.None? || outdir.value == "") && (name.None? || name.value == "") && Strip(typed) == ""
    ensures r.Err? ==> r.error == 2
  {
    if outdir.Some? && outdir.value != "" then Ok(outdir.value)
    else if name.Some? && name.value != "" then Ok("Ligand_" + name.value)
    else if Strip(typed) != "" then Ok("Ligand_" + Strip(typed))
    else Err(2)
  }

  /**
   * Resolves the output directory under `cwd`: an existing one is replaced by
   * its next unique variant with `--unique` and is exit 1 otherwise.
   */
  method ResolveOutDir(cwd: string, dirArg: string, unique: bool, existing: set<string>) returns (r: Result<string, int>)
    ensures var dir := JoinPath(cwd, OutDirName(dirArg));
      && (dir !in existing ==> r == Ok(dir))
      && (dir in existing && !unique ==> r == Err(1))
      && (dir in existing && unique ==> r.Ok? && r.value !in existing && NamedAfter(r.value, dir))
  {
    var dir := JoinPath(cwd, OutDirName(dirArg));
    if dir in existing {
      if unique {
        var u := NextUniquePath(dir, existing);
        return Ok(u);
      }
      return Err(1);
    }
    return Ok(dir);
  }

  /**
   * The whole run after the input SDF is chosen: the input must be a file
   * (else exit 2), the directory is resolved, the records are split, and
   * writing nothing is exit 1. The new directory is always empty, so every
   * file is exactly `<stem>.sdf`.
   */
  method Run(cwd: string, inputIsFile: bool, outdir: Option<string>, name: Option<string>, typed: string,
             unique: bool, existing: set<string>, records: Option<seq<Record>>, prefix: string, pad: nat, keepNames: bool)
    returns (o: Outcome)
    ensures !inputIsFile ==> o == Exit(2)
    ensures inputIsFile && OutDirArg(outdir, name, typed).Err? ==> o == Exit(2)
    ensures o.Exit? ==> o.code in {1, 2}
    ensures inputIsFile && OutDirArg(outdir, name, typed).Ok? ==>
      var dir := JoinPath(cwd, OutDirName(OutDirArg(outdir, name, typed).value));
      var blocked := dir in existing && !unique;
      && (blocked ==> o == Exit(1))
      && (!blocked && (records.None? || Written(records.value) == []) ==> o == Exit(1))
      && (!blocked && records.Some? && Written(records.value) != [] ==>
            o.Done? && (dir !in existing ==> o.outdir == dir) && (dir in existing ==> NamedAfter(o.outdir, dir)))
    ensures o.Done? ==>
      && records.Some? && 0 < o.count == |o.manifest| == |Written(records.value)|
      && o.outdir !in existing
      && RowsFollow(o.manifest, Written(records.value), Naming(prefix, pad, keepNames))
      && ExactNames(o.manifest, Written(records.value), Naming(prefix, pad, keepNames))
  {
    if !inputIsFile {
      return Exit(2);
    }
    var arg := OutDirArg(outdir, name, typed);
    if arg.Err? {
      return Exit(2);
    }
    var dir := ResolveOutDir(cwd, arg.value, unique, existing);
    if dir.Err? {
      return Exit(dir.error);
    }
    var n, manifest, _ := SplitSdf(records, {}, prefix, pad, keepNames);
    if n == 0 {
      return Exit(1);
    }
    return Done(dir.value, n, manifest.value);
  }
}
