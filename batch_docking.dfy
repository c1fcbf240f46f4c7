/**
 * The bookkeeping of 3_Complete_batch_docking.py: run tags from folder names,
 * the worker-pool size, the fatal input checks, receptor resolution with an
 * extension fallback, the (centre row x ligand) job matrix with its output
 * layout, the ten-line Vina config, the per-job log and ledger line, and the
 * completion loop's tallies.
 *
 * The filesystem is a set of existing paths; Vina is an oracle giving each job
 * an exit code and its output bytes; `as_completed` is a permutation of the
 * job indices.
 */
module BatchDocking {
  import opened Wrappers
  import opened Text
  import opened Paths
  import opened Sanitize
  import opened Completion

  // ---------- run tags ----------

  /** The folder name with one leading `Receptors_` removed. */
  function ReceptorBase(name: string): (r: string)
    ensures StartsWith(name, "Receptors_") ==> name == "Receptors_" + r
    ensures !StartsWith(name, "Receptors_") ==> r == name
  {
    if StartsWith(name, "Receptors_") then name[10..] else name
  }

  /** `_receptor_tag_from_dir` on the folder's name. */
  function ReceptorTagOfName(name: string): (r: string)
    ensures IsCleanTag(r)
  {
    var base := ReceptorBase(name);
    SanitizeTag(if base == [] then "Receptors" else base)
  }

  /** `_receptor_tag_from_dir(receptor_dir)` */
  function ReceptorTag(receptorDir: string): (r: string)
    ensures IsCleanTag(r)
  {
    ReceptorTagOfName(PathName(receptorDir))
  }

  /** Only one `Receptors_` is removed, and a clean remainder is kept as it is. */
  lemma ReceptorTagStripsOnce(rest: string)
    requires IsCleanTag(rest)
    ensures ReceptorTagOfName("Receptors_" + rest) == rest
    ensures ReceptorTagOfName("Receptors_") == "Receptors"
  {
    ReceptorBaseOf(rest);
    SanitizeWithFixed(rest, "X");
    BarePrefixTag();
  }

  lemma ReceptorBaseOf(rest: string)
    ensures ReceptorBase("Receptors_" + rest) == rest
  {
    StartsWithAppend("Receptors_", rest);
  }

  lemma BarePrefixTag()
    ensures ReceptorTagOfName("Receptors_") == "Receptors"
  {
    assert ReceptorBase("Receptors_") == [];
    assert IsCleanTag("Receptors");
    SanitizeWithFixed("Receptors", "X");
  }

  /** The longest run of decimal digits at the front of `s`. */
  function DigitRun(s: string): (r: string)
    ensures AllDigits(r) && StartsWith(s, r)
    ensures |r| < |s| ==> !IsDigit(s[|r|])
  {
    if s != [] && IsDigit(s[0]) then [s[0]] + DigitRun(s[1..]) else []
  }

  lemma {:induction false} DigitRunOf(d: string, t: string)
    requires AllDigits(d) && (t == [] || !IsDigit(t[0]))
    ensures DigitRun(d + t) == d
  {
    if d != [] {
      assert (d + t)[1..] == d[1..] + t;
      DigitRunOf(d[1..], t);
      assert d == [d[0]] + d[1..];
    } else {
      assert d + t == t;
    }
  }

  /**
   * `re.match(r"^Ligands_CPD(\d+)_Ligands", name)` and its group. The greedy
   * `\d+` can only give back digits, which never begin `_Ligands`, so a match is
   * the maximal digit run followed by `_Ligands`.
   */
  function CpdNumber(name: string): (r: Option<string>)
    ensures r.Some? ==> IsDigits(r.value) && StartsWith(name, "Ligands_CPD" + r.value + "_Ligands")
  {
    if !StartsWith(name, "Ligands_CPD") then None
    else
      var rest := name[11..];
      var d := DigitRun(rest);
      if d != [] && StartsWith(rest[|d|..], "_Ligands") then
        assert name == "Ligands_CPD" + rest;
        assert rest[..|d| + 8] == d + "_Ligands";
        Some(d)
      else None
  }

  /** Every name of the form `Ligands_CPD<digits>_Ligands...` is recognised, with its digits. */
  lemma CpdNumberFinds(d: string, rest: string)
    requires IsDigits(d)
    ensures CpdNumber("Ligands_CPD" + d + "_Ligands" + rest) == Some(d)
  {
    var name := "Ligands_CPD" + d + "_Ligands" + rest;
    assert name[..11] == "Ligands_CPD";
    assert name[11..] == d + ("_Ligands" + rest);
    DigitRunOf(d, "_Ligands" + rest);
    assert name[11..][|d|..] == "_Ligands" + rest;
  }

  /** `_ligand_tag_from_dir` on the folder's name. */
  function LigandTagOfName(name: string): (r: string)
    ensures IsCleanTag(r)
    ensures CpdNumber(name).Some? ==> r == "CPD" + CpdNumber(name).value
  {
    match CpdNumber(name)
    case Some(d) =>
      assert forall i :: 0 <= i < |d| ==> TagChar(d[i]);
      "CPD" + d
    case None => SanitizeTag(if name == [] then "Ligands" else name)
  }

  /** `_ligand_tag_from_dir(ligand_dir)` */
  function LigandTag(ligandDir: string): (r: string)
    ensures IsCleanTag(r)
  {
    LigandTagOfName(PathName(ligandDir))
  }

  /** The run stem shared by the results, configs, run-log, duration and summary names. */
  function RunStem(recTag: string, ligTag: string, numModes: int, timestamp: string): string
  {
    recTag + "_" + ligTag + "_" + IntToString(numModes) + "Poses_" + timestamp
  }

  /** `f"Docking_Results_{stem}"` */
  function ResultsDirName(stem: string): string
  {
    "Docking_Results_" + stem
  }

  /** `f"run_log_{stem}.txt"` */
  function RunLogName(stem: string): string
  {
    "run_log_" + stem + ".txt"
  }

  /** The stem of one run: the two folder tags, the pose count and the timestamp. */
  function StemOf(receptorDir: string, ligandDir: string, numModes: int, timestamp: string): string
  {
    RunStem(ReceptorTag(receptorDir), LigandTag(ligandDir), numModes, timestamp)
  }

  /** `results_dir`: the results folder inside the working folder. */
  function ResultsDir(cwd: string, stem: string): string
  {
    JoinPath(cwd, ResultsDirName(stem))
  }

  /** `run_log_path`: the run log inside the working folder. */
  function RunLogPath(cwd: string, stem: string): string
  {
    JoinPath(cwd, RunLogName(stem))
  }

  lemma TagHasNoSlash(t: string)
    requires AllTagChars(t)
    ensures '/' !in t
  {
  }

  lemma NumberHasNoSlash(n: int)
    ensures '/' !in IntToString(n)
  {
  }

  /** The stem has no `/` when the timestamp has none: the tags are clean and `str(num_modes)` is a number. */
  lemma StemHasNoSlash(recTag: string, ligTag: string, numModes: int, timestamp: string)
    requires IsCleanTag(recTag) && IsCleanTag(ligTag) && '/' !in timestamp
    ensures '/' !in RunStem(recTag, ligTag, numModes, timestamp)
  {
    var n := IntToString(numModes);
    TagHasNoSlash(recTag);
    TagHasNoSlash(ligTag);
    NumberHasNoSlash(numModes);
    NoSlashConcat(recTag, "_");
    NoSlashConcat(recTag + "_", ligTag);
    NoSlashConcat(recTag + "_" + ligTag, "_");
    NoSlashConcat(recTag + "_" + ligTag + "_", n);
    NoSlashConcat(recTag + "_" + ligTag + "_" + n, "Poses_");
    NoSlashConcat(recTag + "_" + ligTag + "_" + n + "Poses_", timestamp);
  }

  lemma NoSlashConcat(a: string, b: string)
    requires '/' !in a && '/' !in b
    ensures '/' !in a + b
  {
  }

  /**
   * The run's folder and log are plain names inside the working folder: the
   * folder is named `Docking_Results_<stem>` and the log `run_log_<stem>.txt`,
   * which is what the result parsers look for there.
   */
  lemma {:induction false} RunNamesInCwd(cwd: string, stem: string)
    requires '/' !in stem
    ensures && Basename(ResultsDir(cwd, stem)) == ResultsDirName(stem) && StartsWith(ResultsDirName(stem), "Docking_Results_")
            && Basename(RunLogPath(cwd, stem)) == RunLogName(stem) && StartsWith(RunLogName(stem), "run_log_")
            && EndsWith(RunLogName(stem), ".txt")
            && ResultsDir(cwd, stem) != [] && ResultsDir(cwd, stem)[|ResultsDir(cwd, stem)| - 1] != '/'
  {
    ResultsDirInCwd(cwd, stem);
    RunLogInCwd(cwd, stem);
  }

  lemma ResultsDirInCwd(cwd: string, stem: string)
    requires '/' !in stem
    ensures Basename(ResultsDir(cwd, stem)) == ResultsDirName(stem) && StartsWith(ResultsDirName(stem), "Docking_Results_")
    ensures ResultsDir(cwd, stem) != [] && ResultsDir(cwd, stem)[|ResultsDir(cwd, stem)| - 1] != '/'
  {
    var name := ResultsDirName(stem);
    assert '/' !in "Docking_Results_";
    NoSlashConcat("Docking_Results_", stem);
    BasenameOfJoin(cwd, name);
    assert name[0] == 'D';
    var p := ResultsDir(cwd, stem);
    assert p == (if cwd == [] || cwd[|cwd| - 1] == '/' then cwd + name else cwd + "/" + name);
    assert p[|p| - 1] == name[|name| - 1];
    assert name[|name| - 1] in name;
  }

  lemma RunLogInCwd(cwd: string, stem: string)
    requires '/' !in stem
    ensures Basename(RunLogPath(cwd, stem)) == RunLogName(stem) && StartsWith(RunLogName(stem), "run_log_")
    ensures EndsWith(RunLogName(stem), ".txt")
  {
    assert '/' !in "run_log_" && '/' !in ".txt";
    NoSlashConcat("run_log_", stem);
    NoSlashConcat("run_log_" + stem, ".txt");
    BasenameOfJoin(cwd, RunLogName(stem));
  }

  // ---------- worker pool ----------

  function Max(a: int, b: int): int { if a >= b then a else b }
  function Min(a: int, b: int): int { if a <= b then a else b }

  /** `len(os.sched_getaffinity(0))` when that call succeeds, else `os.cpu_count() or 1`. */
  function BaseCpuCount(affinity: Option<nat>, cpuCount: Option<nat>): nat
  {
    if affinity.Some? then affinity.value
    else if cpuCount.Some? && cpuCount.value != 0 then cpuCount.value
    else 1
  }

  /**
   * `cpu_count_cgroup_aware`: the base count, capped by `LSB_DJOB_NUMPROC` when that
   * variable is set, nonempty and parses as an integer, and never below 1.
   */
  function CpuCount(affinity: Option<nat>, cpuCount: Option<nat>, lsfNumProc: Option<string>): (r: nat)
    ensures r >= 1
    ensures r <= Max(1, BaseCpuCount(affinity, cpuCount))
    ensures lsfNumProc.Some? && PyInt(lsfNumProc.value).Some? && PyInt(lsfNumProc.value).value >= 1
      ==> r <= PyInt(lsfNumProc.value).value
    ensures (lsfNumProc.None? || PyInt(lsfNumProc.value).None?) ==> r == Max(1, BaseCpuCount(affinity, cpuCount))
    ensures lsfNumProc.Some? && PyInt(lsfNumProc.value).Some? ==>
      r == Max(1, Min(BaseCpuCount(affinity, cpuCount), PyInt(lsfNumProc.value).value))
  {
    var n: int := BaseCpuCount(affinity, cpuCount);
    var capped :=
      if lsfNumProc.Some? && lsfNumProc.value != "" && PyInt(lsfNumProc.value).Some?
      then Min(n, PyInt(lsfNumProc.value).value)
      else n;
    Max(1, capped)
  }

  /** `max(1, ncpus - max(0, reserve_cores))` */
  function MaxWorkers(ncpus: nat, reserveCores: int): (w: nat)
    requires ncpus >= 1
    ensures 1 <= w <= ncpus
    ensures reserveCores <= 0 ==> w == ncpus
    ensures 0 <= reserveCores < ncpus ==> w == ncpus - reserveCores
    ensures reserveCores >= ncpus ==> w == 1
  {
    Max(1, ncpus - Max(0, reserveCores))
  }

  // ---------- the centres table ----------

  /** `csv.DictReader` output: the header and one dictionary per data row. */
  datatype CentersTable = CentersTable(fieldnames: seq<string>, rows: seq<map<string, string>>)

  datatype CenterRow = CenterRow(pdbid: string, x: string, y: string, z: string)

  /** `{"PDB_ID", "X", "Y", "Z"}` is a subset of the header. */
  predicate HasRequiredColumns(fieldnames: seq<string>)
  {
    "PDB_ID" in fieldnames && "X" in fieldnames && "Y" in fieldnames && "Z" in fieldnames
  }

  /** Every row has a value for every header column, as `DictReader` gives for full rows. */
  predicate RowsKeyed(t: CentersTable)
  {
    forall i, f :: 0 <= i < |t.rows| && f in t.fieldnames ==> f in t.rows[i]
  }

  /** `row["PDB_ID"]`, `row["X"]`, `row["Y"]`, `row["Z"]` for each row, in file order. */
  function CenterRows(t: CentersTable): (r: seq<CenterRow>)
    requires HasRequiredColumns(t.fieldnames) && RowsKeyed(t)
    ensures |r| == |t.rows|
    ensures forall i :: 0 <= i < |r| ==>
      r[i].pdbid == t.rows[i]["PDB_ID"] && r[i].x == t.rows[i]["X"] && r[i].y == t.rows[i]["Y"] && r[i].z == t.rows[i]["Z"]
  {
    seq(|t.rows|, i requires 0 <= i < |t.rows| => CenterRow(t.rows[i]["PDB_ID"], t.rows[i]["X"], t.rows[i]["Y"], t.rows[i]["Z"]))
  }

  // ---------- receptor resolution ----------

  const ReceptorExts: seq<string> := [".pdbqt", ".pdb", ".mol2"]

  /** The first candidate that exists, if any. */
  function FirstExisting(fs: set<string>, cands: seq<string>): (r: Option<nat>)
    ensures r.Some? ==> r.value < |cands| && cands[r.value] in fs
    ensures r.Some? ==> forall j :: 0 <= j < r.value ==> cands[j] !in fs
    ensures r.None? ==> forall j :: 0 <= j < |cands| ==> cands[j] !in fs
  {
    if cands == [] then None
    else if cands[0] in fs then Some(0)
    else match FirstExisting(fs, cands[1..])
      case None => None
      case Some(k) => Some(k + 1)
  }

  /** The paths tried for a row: `join(receptor_dir, pdbid)`, then that path plus each extension. */
  function ReceptorCandidates(receptorDir: string, pdbid: string): (r: seq<string>)
    ensures |r| == 4
  {
    var base := JoinPath(receptorDir, pdbid);
    [base, base + ".pdbqt", base + ".pdb", base + ".mol2"]
  }

  /** The receptor file a row resolves to; None means the row is logged as missing. */
  function ResolvedReceptor(fs: set<string>, receptorDir: string, pdbid: string): Option<string>
  {
    var cands := ReceptorCandidates(receptorDir, pdbid);
    match FirstExisting(fs, cands)
    case None => None
    case Some(k) => Some(cands[k])
  }

  /** Resolution picks the bare path if it exists, else the first existing extension in the fixed order. */
  lemma ResolutionOrder(fs: set<string>, receptorDir: string, pdbid: string)
    ensures var base := JoinPath(receptorDir, pdbid);
      && (base in fs ==> ResolvedReceptor(fs, receptorDir, pdbid) == Some(base))
      && (base !in fs && base + ".pdbqt" in fs ==> ResolvedReceptor(fs, receptorDir, pdbid) == Some(base + ".pdbqt"))
      && (base !in fs && base + ".pdbqt" !in fs && base + ".pdb" in fs ==> ResolvedReceptor(fs, receptorDir, pdbid) == Some(base + ".pdb"))
      && (base !in fs && base + ".pdbqt" !in fs && base + ".pdb" !in fs && base + ".mol2" in fs ==> ResolvedReceptor(fs, receptorDir, pdbid) == Some(base + ".mol2"))
      && (base !in fs && base + ".pdbqt" !in fs && base + ".pdb" !in fs && base + ".mol2" !in fs ==> ResolvedReceptor(fs, receptorDir, pdbid) == None)
  {
    var cands := ReceptorCandidates(receptorDir, pdbid);
    if cands[0] in fs {
      FirstExistingIs(fs, cands, 0);
    } else if cands[1] in fs {
      FirstExistingIs(fs, cands, 1);
    } else if cands[2] in fs {
      FirstExistingIs(fs, cands, 2);
    } else if cands[3] in fs {
      FirstExistingIs(fs, cands, 3);
    } else {
      FirstExistingNone(fs, cands);
    }
  }

  /** The resolution step of the row loop: the bare path, then the extension loop with its `break`. */
  method ResolveReceptor(fs: set<string>, receptorDir: string, pdbid: string) returns (r: Option<string>)
    ensures r == ResolvedReceptor(fs, receptorDir, pdbid)
  {
    var receptorFile := JoinPath(receptorDir, pdbid);
    ghost var cands := ReceptorCandidates(receptorDir, pdbid);
    if receptorFile in fs {
      return Some(receptorFile);
    }
    var alt: Option<string> := None;
    var i := 0;
    while i < |ReceptorExts| && alt.None?
      invariant 0 <= i <= |ReceptorExts|
      invariant alt.None? ==> forall j :: 0 <= j <= i ==> cands[j] !in fs
      invariant alt.Some? ==> 1 <= i && alt.value == cands[i] && cands[i] in fs
      invariant alt.Some? ==> forall j :: 0 <= j < i ==> cands[j] !in fs
    {
      var cand := receptorFile + ReceptorExts[i];
      if cand in fs {
        alt := Some(cand);
      }
      i := i + 1;
    }
    if alt.Some? {
      FirstExistingIs(fs, cands, i);
    } else {
      FirstExistingNone(fs, cands);
    }
    r := alt;
  }

  lemma FirstExistingIs(fs: set<string>, cands: seq<string>, k: nat)
    requires k < |cands| && cands[k] in fs && forall j :: 0 <= j < k ==> cands[j] !in fs
    ensures FirstExisting(fs, cands) == Some(k)
  {
    var r := FirstExisting(fs, cands);
    assert r.Some? ==> r.value == k;
  }

  lemma FirstExistingNone(fs: set<string>, cands: seq<string>)
    requires forall j :: 0 <= j < |cands| ==> cands[j] !in fs
    ensures FirstExisting(fs, cands) == None
  {
  }

  // ---------- the job matrix ----------

  datatype Job = Job(
    ligand: string, ligandFile: string, receptorFile: string,
    outputPdbqt: string, outputLog: string, configPath: string,
    cx: string, cy: string, cz: string, pdbid: string, numModes: int)

  /** What the row loop reads besides the rows: existing paths, folders, ligand names, poses. */
  datatype Setup = Setup(
    fs: set<string>, receptorDir: string, ligandDir: string, resultsDir: string,
    ligands: seq<string>, numModes: int)

  /** `.replace(".pdbqt", "").replace(".pdb", "").replace(".mol2", "")` */
  function StripReceptorExt(s: string): string
  {
    ReplaceAll(ReplaceAll(ReplaceAll(s, ".pdbqt", ""), ".pdb", ""), ".mol2", "")
  }

  /** `safe_pdbid`: the receptor file's base name without receptor extensions. */
  function SafePdbid(receptorFile: string): string
  {
    StripReceptorExt(Basename(receptorFile))
  }

  function LigandFile(ligandDir: string, ligand: string): string
  {
    JoinPath(ligandDir, ligand + ".pdbqt")
  }

  /** `results_dir/safe_pdbid/ligand` */
  function OutputSubdir(resultsDir: string, receptorFile: string, ligand: string): string
  {
    JoinPath(JoinPath(resultsDir, SafePdbid(receptorFile)), ligand)
  }

  /** The job dictionary appended for one (row, ligand) pair. */
  function MakeJob(st: Setup, row: CenterRow, receptorFile: string, ligand: string): (j: Job)
    ensures j.ligand == ligand && j.pdbid == row.pdbid && j.receptorFile == receptorFile
    ensures j.ligandFile == LigandFile(st.ligandDir, ligand)
    ensures var sub := OutputSubdir(st.resultsDir, receptorFile, ligand);
      j.outputPdbqt == JoinPath(sub, "out.pdbqt") && j.outputLog == JoinPath(sub, "log.txt") && j.configPath == JoinPath(sub, "config.txt")
  {
    var sub := OutputSubdir(st.resultsDir, receptorFile, ligand);
    Job(ligand, LigandFile(st.ligandDir, ligand), receptorFile,
        JoinPath(sub, "out.pdbqt"), JoinPath(sub, "log.txt"), JoinPath(sub, "config.txt"),
        row.x, row.y, row.z, row.pdbid, st.numModes)
  }

  function MissingReceptorLine(receptorFile: string): string
  {
    "\U{274C} Missing receptor: " + receptorFile + "(.pdbqt/.pdb/.mol2)"
  }

  function MissingLigandLine(ligandFile: string): string
  {
    "\U{274C} Missing ligand: " + ligandFile
  }

  /** A resolved row's jobs: one per ligand whose file exists, in ligand order. */
  function LigandJobs(st: Setup, row: CenterRow, receptorFile: string, ligands: seq<string>): seq<Job>
  {
    if ligands == [] then []
    else
      var last := ligands[|ligands| - 1];
      LigandJobs(st, row, receptorFile, ligands[..|ligands| - 1])
        + (if LigandFile(st.ligandDir, last) in st.fs then [MakeJob(st, row, receptorFile, last)] else [])
  }

  /** A resolved row's run-log lines: one per ligand whose file is missing. */
  function LigandMisses(st: Setup, ligands: seq<string>): seq<string>
  {
    if ligands == [] then []
    else
      var last := ligands[|ligands| - 1];
      LigandMisses(st, ligands[..|ligands| - 1])
        + (if LigandFile(st.ligandDir, last) in st.fs then [] else [MissingLigandLine(LigandFile(st.ligandDir, last))])
  }

  function RowJobs(st: Setup, row: CenterRow): seq<Job>
  {
    match ResolvedReceptor(st.fs, st.receptorDir, row.pdbid)
    case None => []
    case Some(receptorFile) => LigandJobs(st, row, receptorFile, st.ligands)
  }

  function RowLog(st: Setup, row: CenterRow): seq<string>
  {
    match ResolvedReceptor(st.fs, st.receptorDir, row.pdbid)
    case None => [MissingReceptorLine(JoinPath(st.receptorDir, row.pdbid))]
    case Some(_) => LigandMisses(st, st.ligands)
  }

  /** The `jobs` list after the row loop: rows outer, ligands inner. */
  function Jobs(st: Setup, rows: seq<CenterRow>): seq<Job>
  {
    if rows == [] then [] else Jobs(st, rows[..|rows| - 1]) + RowJobs(st, rows[|rows| - 1])
  }

  /** What the row loop writes to the run log. */
  function MissingLog(st: Setup, rows: seq<CenterRow>): seq<string>
  {
    if rows == [] then [] else MissingLog(st, rows[..|rows| - 1]) + RowLog(st, rows[|rows| - 1])
  }

  /** The row loop of `main`, with its inner ligand loop. */
  method BuildJobs(st: Setup, rows: seq<CenterRow>) returns (jobs: seq<Job>, runLog: seq<string>)
    ensures jobs == Jobs(st, rows) && runLog == MissingLog(st, rows)
  {
    jobs, runLog := [], [];
    var i := 0;
    while i < |rows|
      invariant 0 <= i <= |rows|
      invariant jobs == Jobs(st, rows[..i]) && runLog == MissingLog(st, rows[..i])
    {
      var row := rows[i];
      RowsSnoc(st, rows, i);
      var receptorFile := ResolveReceptor(st.fs, st.receptorDir, row.pdbid);
      if receptorFile.None? {
        runLog := runLog + [MissingReceptorLine(JoinPath(st.receptorDir, row.pdbid))];
      } else {
        var added, missed := LigandLoop(st, row, receptorFile.value);
        jobs, runLog := jobs + added, runLog + missed;
      }
      i := i + 1;
    }
    assert rows[..i] == rows;
  }

  /** The row loop's step: one more row appends that row's jobs and log lines. */
  lemma RowsSnoc(st: Setup, rows: seq<CenterRow>, i: nat)
    requires i < |rows|
    ensures Jobs(st, rows[..i + 1]) == Jobs(st, rows[..i]) + RowJobs(st, rows[i])
    ensures MissingLog(st, rows[..i + 1]) == MissingLog(st, rows[..i]) + RowLog(st, rows[i])
  {
    assert rows[..i + 1][..i] == rows[..i];
  }

  /** The ligand loop's step: one more ligand appends its job or its log line. */
  lemma LigandsSnoc(st: Setup, row: CenterRow, receptorFile: string, ligands: seq<string>, k: nat)
    requires k < |ligands|
    ensures LigandJobs(st, row, receptorFile, ligands[..k + 1]) == LigandJobs(st, row, receptorFile, ligands[..k])
      + (if LigandFile(st.ligandDir, ligands[k]) in st.fs then [MakeJob(st, row, receptorFile, ligands[k])] else [])
    ensures LigandMisses(st, ligands[..k + 1]) == LigandMisses(st, ligands[..k])
      + (if LigandFile(st.ligandDir, ligands[k]) in st.fs then [] else [MissingLigandLine(LigandFile(st.ligandDir, ligands[k]))])
  {
    assert ligands[..k + 1][..k] == ligands[..k];
  }

  lemma LigandPresentStep(st: Setup, row: CenterRow, receptorFile: string, ligands: seq<string>, k: nat)
    requires k < |ligands| && LigandFile(st.ligandDir, ligands[k]) in st.fs
    ensures LigandJobs(st, row, receptorFile, ligands[..k + 1])
      == LigandJobs(st, row, receptorFile, ligands[..k]) + [MakeJob(st, row, receptorFile, ligands[k])]
    ensures LigandMisses(st, ligands[..k + 1]) == LigandMisses(st, ligands[..k])
  {
    LigandsSnoc(st, row, receptorFile, ligands, k);
  }

  lemma LigandMissingStep(st: Setup, row: CenterRow, receptorFile: string, ligands: seq<string>, k: nat)
    requires k < |ligands| && LigandFile(st.ligandDir, ligands[k]) !in st.fs
    ensures LigandJobs(st, row, receptorFile, ligands[..k + 1]) == LigandJobs(st, row, receptorFile, ligands[..k])
    ensures LigandMisses(st, ligands[..k + 1]) == LigandMisses(st, ligands[..k]) + [MissingLigandLine(LigandFile(st.ligandDir, ligands[k]))]
  {
    LigandsSnoc(st, row, receptorFile, ligands, k);
  }

  /** The inner loop over the ligands of a row whose receptor resolved: the jobs it adds and the lines it logs. */
  method LigandLoop(st: Setup, row: CenterRow, receptorFile: string) returns (added: seq<Job>, missed: seq<string>)
    ensures added == LigandJobs(st, row, receptorFile, st.ligands)
    ensures missed == LigandMisses(st, st.ligands)
  {
    added, missed := [], [];
    var k := 0;
    while k < |st.ligands|
      invariant 0 <= k <= |st.ligands|
      invariant added == LigandJobs(st, row, receptorFile, st.ligands[..k])
      invariant missed == LigandMisses(st, st.ligands[..k])
    {
      var ligand := st.ligands[k];
      var ligandFile := LigandFile(st.ligandDir, ligand);
      if ligandFile !in st.fs {
        LigandMissingStep(st, row, receptorFile, st.ligands, k);
        missed := missed + [MissingLigandLine(ligandFile)];
      } else {
        LigandPresentStep(st, row, receptorFile, st.ligands, k);
        added := added + [MakeJob(st, row, receptorFile, ligand)];
      }
      k := k + 1;
    }
    assert st.ligands[..k] == st.ligands;
  }

  /** Every listed ligand name has its file in the ligand folder. */
  predicate LigandsPresent(st: Setup)
  {
    forall k :: 0 <= k < |st.ligands| ==> LigandFile(st.ligandDir, st.ligands[k]) in st.fs
  }

  datatype ResolvedRow = ResolvedRow(row: CenterRow, receptorFile: string)

  /** The rows whose receptor resolves, with the file each resolves to, in order. */
  function ResolvedRows(st: Setup, rows: seq<CenterRow>): seq<ResolvedRow>
  {
    if rows == [] then []
    else
      var row := rows[|rows| - 1];
      ResolvedRows(st, rows[..|rows| - 1])
        + match ResolvedReceptor(st.fs, st.receptorDir, row.pdbid)
          case None => []
          case Some(f) => [ResolvedRow(row, f)]
  }

  /** With every ligand file present, a resolved row yields exactly one job per ligand, in order. */
  lemma {:induction false} LigandJobsAll(st: Setup, row: CenterRow, receptorFile: string, ligands: seq<string>)
    requires forall k :: 0 <= k < |ligands| ==> LigandFile(st.ligandDir, ligands[k]) in st.fs
    ensures |LigandJobs(st, row, receptorFile, ligands)| == |ligands|
    ensures forall j :: 0 <= j < |ligands| ==> LigandJobs(st, row, receptorFile, ligands)[j] == MakeJob(st, row, receptorFile, ligands[j])
    ensures LigandMisses(st, ligands) == []
  {
    if ligands != [] {
      var init, last := ligands[..|ligands| - 1], ligands[|ligands| - 1];
      LigandJobsAll(st, row, receptorFile, init);
      assert LigandFile(st.ligandDir, last) in st.fs;
      var js := LigandJobs(st, row, receptorFile, ligands);
      assert js == LigandJobs(st, row, receptorFile, init) + [MakeJob(st, row, receptorFile, last)];
      forall j | 0 <= j < |ligands| ensures js[j] == MakeJob(st, row, receptorFile, ligands[j]) {
        if j < |init| {
          assert ligands[j] == init[j];
        }
      }
    }
  }

  lemma MulBound(i: nat, j: nat, n: nat, w: nat)
    requires i < n && j < w
    ensures i * w + j < n * w
  {
    assert (n - i) * w >= w by {
      assert n - i >= 1;
    }
    assert n * w == i * w + (n - i) * w;
  }

  /** Job `i * L + j` pairs resolved row `i` with ligand `j`, and there are no other jobs. */
  predicate IsRowMajor(st: Setup, js: seq<Job>, rr: seq<ResolvedRow>)
  {
    && |js| == |rr| * |st.ligands|
    && forall i, j :: 0 <= i < |rr| && 0 <= j < |st.ligands| ==>
         (MulBound(i, j, |rr|, |st.ligands|);
          js[i * |st.ligands| + j] == MakeJob(st, rr[i].row, rr[i].receptorFile, st.ligands[j]))
  }

  lemma RowMajorSnoc(st: Setup, js: seq<Job>, rr: seq<ResolvedRow>, x: ResolvedRow, block: seq<Job>)
    requires IsRowMajor(st, js, rr)
    requires |block| == |st.ligands|
    requires forall j :: 0 <= j < |block| ==> block[j] == MakeJob(st, x.row, x.receptorFile, st.ligands[j])
    ensures IsRowMajor(st, js + block, rr + [x])
  {
    MulSucc(|rr|, |st.ligands|);
    forall i, j | 0 <= i < |rr + [x]| && 0 <= j < |st.ligands|
      ensures (MulBound(i, j, |rr + [x]|, |st.ligands|);
               (js + block)[i * |st.ligands| + j] == MakeJob(st, (rr + [x])[i].row, (rr + [x])[i].receptorFile, st.ligands[j]))
    {
      SnocCell(st, js, rr, x, block, i, j);
    }
  }

  lemma MulSucc(n: nat, L: nat)
    ensures (n + 1) * L == n * L + L
  {
  }

  /** One cell of the extended table: an old row's cell is unchanged, the new row's cells are the block. */
  lemma SnocCell(st: Setup, js: seq<Job>, rr: seq<ResolvedRow>, x: ResolvedRow, block: seq<Job>, i: nat, j: nat)
    requires IsRowMajor(st, js, rr)
    requires |block| == |st.ligands|
    requires forall j :: 0 <= j < |block| ==> block[j] == MakeJob(st, x.row, x.receptorFile, st.ligands[j])
    requires i <= |rr| && j < |st.ligands|
    ensures i * |st.ligands| + j < |js + block|
    ensures (js + block)[i * |st.ligands| + j] == MakeJob(st, (rr + [x])[i].row, (rr + [x])[i].receptorFile, st.ligands[j])
  {
    if i < |rr| {
      OldCell(st, js, rr, x, block, i, j);
    } else {
      IndexAfter(js, block, i, j, |st.ligands|);
    }
  }

  lemma OldCell(st: Setup, js: seq<Job>, rr: seq<ResolvedRow>, x: ResolvedRow, block: seq<Job>, i: nat, j: nat)
    requires IsRowMajor(st, js, rr) && i < |rr| && j < |st.ligands|
    ensures i * |st.ligands| + j < |js|
    ensures (js + block)[i * |st.ligands| + j] == MakeJob(st, (rr + [x])[i].row, (rr + [x])[i].receptorFile, st.ligands[j])
  {
    MulBound(i, j, |rr|, |st.ligands|);
    assert (rr + [x])[i] == rr[i];
    IndexBefore(js, block, i * |st.ligands| + j);
  }

  lemma IndexBefore<T>(a: seq<T>, b: seq<T>, n: nat)
    requires n < |a|
    ensures (a + b)[n] == a[n]
  {
  }

  lemma IndexAfter<T>(a: seq<T>, b: seq<T>, i: nat, j: nat, L: nat)
    requires |a| == i * L && j < |b|
    ensures i * L + j < |a + b| && (a + b)[i * L + j] == b[j]
  {
  }

  /**
   * Row-major order: with every ligand file present, job `i * L + j` pairs the
   * `i`-th resolving row with the `j`-th ligand, and nothing else is a job; every
   * other row leaves exactly one run-log line.
   */
  lemma {:induction false} JobsRowMajor(st: Setup, rows: seq<CenterRow>)
    requires LigandsPresent(st)
    ensures IsRowMajor(st, Jobs(st, rows), ResolvedRows(st, rows))
    ensures |MissingLog(st, rows)| == |rows| - |ResolvedRows(st, rows)|
  {
    if rows != [] {
      var init := rows[..|rows| - 1];
      var row := rows[|rows| - 1];
      JobsRowMajor(st, init);
      var prev := ResolvedRows(st, init);
      match ResolvedReceptor(st.fs, st.receptorDir, row.pdbid)
      case None =>
        assert ResolvedRows(st, rows) == prev;
        assert Jobs(st, rows) == Jobs(st, init);
      case Some(f) =>
        LigandJobsAll(st, row, f, st.ligands);
        assert ResolvedRows(st, rows) == prev + [ResolvedRow(row, f)];
        assert Jobs(st, rows) == Jobs(st, init) + LigandJobs(st, row, f, st.ligands);
        RowMajorSnoc(st, Jobs(st, init), prev, ResolvedRow(row, f), LigandJobs(st, row, f, st.ligands));
    }
  }

  /** Every resolved row is one of the table's rows, and its receptor file is what that row's PDB_ID resolves to. */
  lemma {:induction false} ResolvedRowsResolve(st: Setup, rows: seq<CenterRow>)
    ensures forall i :: 0 <= i < |ResolvedRows(st, rows)| ==>
      && ResolvedRows(st, rows)[i].row in rows
      && ResolvedReceptor(st.fs, st.receptorDir, ResolvedRows(st, rows)[i].row.pdbid) == Some(ResolvedRows(st, rows)[i].receptorFile)
  {
    if rows != [] {
      var init := rows[..|rows| - 1];
      ResolvedRowsResolve(st, init);
      assert forall r :: r in init ==> r in rows;
    }
  }

  /** An index below `rows * width` splits into a row below `rows` and a column below `width`. */
  lemma RowMajorIndex(n: nat, rows: nat, width: nat)
    requires n < rows * width
    ensures width > 0 && n / width < rows && n == (n / width) * width + n % width
  {
    assert width != 0 by {
      assert width == 0 ==> rows * width == 0;
    }
    var q := n / width;
    assert q * width <= n;
    assert (rows - q) * width == rows * width - q * width;
  }

  /** One cell of a row-major job table. */
  lemma RowMajorAt(st: Setup, js: seq<Job>, rr: seq<ResolvedRow>, i: nat, j: nat)
    requires IsRowMajor(st, js, rr) && i < |rr| && j < |st.ligands|
    ensures i * |st.ligands| + j < |js| && js[i * |st.ligands| + j] == MakeJob(st, rr[i].row, rr[i].receptorFile, st.ligands[j])
  {
    MulBound(i, j, |rr|, |st.ligands|);
  }

  /** The job at position `n` of a row-major job table, as the resolved row `i` and ligand `j` it came from. */
  lemma JobAt(st: Setup, js: seq<Job>, rr: seq<ResolvedRow>, n: nat) returns (i: nat, j: nat)
    requires IsRowMajor(st, js, rr) && n < |js|
    ensures i < |rr| && j < |st.ligands| && js[n] == MakeJob(st, rr[i].row, rr[i].receptorFile, st.ligands[j])
  {
    RowMajorIndex(n, |rr|, |st.ligands|);
    i, j := n / |st.ligands|, n % |st.ligands|;
    RowMajorAt(st, js, rr, i, j);
  }

  // ---------- ligand names from the glob ----------

  /** A folder entry that `glob("*.pdbqt")` returns: not hidden, ending in `.pdbqt`. */
  predicate GlobsAsPdbqt(entry: string)
  {
    entry != [] && entry[0] != '.' && EndsWith(entry, ".pdbqt")
  }

  /** `[splitext(basename(f))[0] for f in glob(join(ligand_dir, "*.pdbqt"))]`, entries in listing order. */
  function LigandNames(ligandDir: string, entries: seq<string>): seq<string>
  {
    if entries == [] then []
    else
      var e := entries[|entries| - 1];
      LigandNames(ligandDir, entries[..|entries| - 1])
        + (if GlobsAsPdbqt(e) then [SplitExtRoot(Basename(JoinPath(ligandDir, e)))] else [])
  }

  /** A globbed entry's ligand name gives back the entry's own path, so that file exists. */
  lemma LigandNameOfEntry(ligandDir: string, e: string)
    requires GlobsAsPdbqt(e) && '/' !in e
    ensures LigandFile(ligandDir, SplitExtRoot(Basename(JoinPath(ligandDir, e)))) == JoinPath(ligandDir, e)
  {
    BasenameOfJoin(ligandDir, e);
    PdbqtEntryLong(e);
    SplitExtPdbqt(e);
    RootThenPdbqt(e);
  }

  lemma PdbqtEntryLong(e: string)
    requires GlobsAsPdbqt(e)
    ensures |e| > 6
  {
    assert e[|e| - 6] == ".pdbqt"[0] == '.';
  }

  lemma RootThenPdbqt(e: string)
    requires EndsWith(e, ".pdbqt")
    ensures e[..|e| - 6] + ".pdbqt" == e
  {
    assert e == e[..|e| - 6] + e[|e| - 6..];
  }

  /**
   * The "Missing ligand" branch never fires for globbed names: every name the
   * glob produced has its file in the folder.
   */
  lemma {:induction false} GlobbedLigandsPresent(fs: set<string>, ligandDir: string, entries: seq<string>)
    requires forall k :: 0 <= k < |entries| ==> '/' !in entries[k] && JoinPath(ligandDir, entries[k]) in fs
    ensures forall k :: 0 <= k < |LigandNames(ligandDir, entries)| ==>
      LigandFile(ligandDir, LigandNames(ligandDir, entries)[k]) in fs
  {
    if entries != [] {
      var init, e := entries[..|entries| - 1], entries[|entries| - 1];
      GlobbedLigandsPresent(fs, ligandDir, init);
      if GlobsAsPdbqt(e) {
        LigandNameOfEntry(ligandDir, e);
      }
    }
  }

  // ---------- the receptor folder name ----------

  /** Removing the receptor extensions undoes appending any one of them. */
  lemma StripReceptorExtAppend(p: string, ext: string)
    requires ext == "" || ext in ReceptorExts
    ensures StripReceptorExt(p + ext) == StripReceptorExt(p)
  {
    if ext == "" {
      assert p + ext == p;
    } else if ext == ".pdbqt" {
      StripAfterPdbqt(p);
    } else if ext == ".pdb" {
      StripAfterPdb(p);
    } else {
      StripAfterMol2(p);
    }
  }

  lemma StripAfterPdbqt(p: string)
    ensures StripReceptorExt(p + ".pdbqt") == StripReceptorExt(p)
  {
    var a := ReplaceAll(p, ".pdbqt", "");
    ReplaceConcat(p, ".pdbqt", ".pdbqt", "");
    ReplaceSelf(".pdbqt", "");
    assert a + "" == a;
  }

  lemma StripAfterPdb(p: string)
    ensures StripReceptorExt(p + ".pdb") == StripReceptorExt(p)
  {
    var a := ReplaceAll(p, ".pdbqt", "");
    var b := ReplaceAll(a, ".pdb", "");
    ReplaceConcat(p, ".pdb", ".pdbqt", "");
    ShortUnchanged(".pdb", ".pdbqt", "");
    ReplaceConcat(a, ".pdb", ".pdb", "");
    ReplaceSelf(".pdb", "");
    assert b + "" == b;
  }

  lemma StripAfterMol2(p: string)
    ensures StripReceptorExt(p + ".mol2") == StripReceptorExt(p)
  {
    var a := ReplaceAll(p, ".pdbqt", "");
    var b := ReplaceAll(a, ".pdb", "");
    ReplaceConcat(p, ".mol2", ".pdbqt", "");
    ShortUnchanged(".mol2", ".pdbqt", "");
    ReplaceConcat(a, ".mol2", ".pdb", "");
    Mol2KeepsPdb();
    ReplaceConcat(b, ".mol2", ".mol2", "");
    ReplaceSelf(".mol2", "");
    assert ReplaceAll(b, ".mol2", "") + "" == ReplaceAll(b, ".mol2", "");
  }

  lemma Mol2KeepsPdb()
    ensures ReplaceAll(".mol2", ".pdb", "") == ".mol2"
  {
  }

  /** The resolved receptor is the joined base followed by one of the candidate extensions. */
  lemma ResolvedExt(fs: set<string>, receptorDir: string, pdbid: string) returns (ext: string)
    requires ResolvedReceptor(fs, receptorDir, pdbid).Some?
    ensures ext == "" || ext in ReceptorExts
    ensures ResolvedReceptor(fs, receptorDir, pdbid).value == JoinPath(receptorDir, pdbid) + ext
  {
    var k := FirstExisting(fs, ReceptorCandidates(receptorDir, pdbid)).value;
    ext := ["", ".pdbqt", ".pdb", ".mol2"][k];
  }

  /** Whichever candidate resolved, the results folder of a row is its PDB_ID without receptor extensions. */
  lemma SafePdbidOfResolved(fs: set<string>, receptorDir: string, pdbid: string)
    requires '/' !in pdbid && ResolvedReceptor(fs, receptorDir, pdbid).Some?
    ensures SafePdbid(ResolvedReceptor(fs, receptorDir, pdbid).value) == StripReceptorExt(pdbid)
  {
    var ext := ResolvedExt(fs, receptorDir, pdbid);
    var prefix := if receptorDir == [] || receptorDir[|receptorDir| - 1] == '/' then receptorDir else receptorDir + "/";
    assert pdbid == [] || pdbid[0] != '/';
    assert JoinPath(receptorDir, pdbid) == prefix + pdbid;
    assert JoinPath(receptorDir, pdbid) + ext == prefix + (pdbid + ext);
    BasenameAfter(prefix, pdbid + ext);
    StripReceptorExtAppend(pdbid, ext);
  }

  // ---------- the Vina config ----------

  /** The ten lines `run_docking` writes to `config.txt`, in order. */
  function ConfigLines(j: Job): (r: seq<string>)
    ensures |r| == 10
  {
    [ "receptor = " + j.receptorFile,
      "ligand = " + j.ligandFile,
      "center_x = " + j.cx,
      "center_y = " + j.cy,
      "center_z = " + j.cz,
      "size_x = 20",
      "size_y = 20",
      "size_z = 20",
      "num_modes = " + IntToString(j.numModes),
      "out = " + j.outputPdbqt ]
  }

  /** The file's text: each line followed by a newline. */
  function ConfigText(j: Job): string
  {
    Terminated(ConfigLines(j))
  }

  /** The settings a `key = value` reader finds in the config, in order. */
  function ConfigEntries(j: Job): seq<(string, string)>
  {
    [ ("receptor", j.receptorFile), ("ligand", j.ligandFile),
      ("center_x", j.cx), ("center_y", j.cy), ("center_z", j.cz),
      ("size_x", "20"), ("size_y", "20"), ("size_z", "20"),
      ("num_modes", IntToString(j.numModes)), ("out", j.outputPdbqt) ]
  }

  /** `key = value` */
  function RenderSetting(e: (string, string)): string
  {
    e.0 + " = " + e.1
  }

  function RenderSettings(es: seq<(string, string)>): (r: seq<string>)
    ensures |r| == |es| && forall i :: 0 <= i < |es| ==> r[i] == RenderSetting(es[i])
  {
    if es == [] then [] else [RenderSetting(es[0])] + RenderSettings(es[1..])
  }

  /** A `key = value` reader on one line: split at the first `=` and strip both sides; None without `=`. */
  function ParseSetting(l: string): Option<(string, string)>
  {
    if '=' in l then
      var i := IndexOf(l, '=');
      Some((Strip(l[..i]), Strip(l[i + 1..])))
    else None
  }

  function ParseConfigLines(lines: seq<string>): seq<(string, string)>
  {
    if lines == [] then []
    else
      (match ParseSetting(lines[0]) case Some(e) => [e] case None => [])
        + ParseConfigLines(lines[1..])
  }

  function ParseConfig(text: string): seq<(string, string)>
  {
    ParseConfigLines(Split(text, '\n'))
  }

  /** A value a `key = value` line carries unchanged: one line, no blanks at either end. */
  predicate PlainValue(v: string)
  {
    '\n' !in v && (v == [] || (!IsSpace(v[0]) && !IsSpace(v[|v| - 1])))
  }

  /** A setting name: nonempty, no blanks at either end, no `=` and no newline. */
  predicate PlainKey(k: string)
  {
    k != [] && !IsSpace(k[0]) && !IsSpace(k[|k| - 1]) && '=' !in k && '\n' !in k
  }

  lemma ParseOneSetting(k: string, v: string)
    requires PlainKey(k) && PlainValue(v)
    ensures ParseSetting(RenderSetting((k, v))) == Some((k, v))
  {
    var l := RenderSetting((k, v));
    var i := |k| + 1;
    SettingSplitsAtEquals(k, v);
    StripThenBlank(k);
    StripBlankThen(v);
    calc {
      ParseSetting(l);
      Some((Strip(l[..i]), Strip(l[i + 1..])));
      Some((Strip(k + " "), Strip(" " + v)));
    }
  }

  /** The first `=` of a rendered setting is the one after the key. */
  lemma SettingSplitsAtEquals(k: string, v: string)
    requires '=' !in k
    ensures var l := RenderSetting((k, v));
      '=' in l && IndexOf(l, '=') == |k| + 1 && l[..|k| + 1] == k + " " && l[|k| + 2..] == " " + v
  {
    var l := k + " = " + v;
    var i := |k| + 1;
    assert l[..i] == k + " ";
    assert l[i + 1..] == " " + v;
    assert '=' !in k + " ";
    IndexOfIs(l, '=', i);
  }

  lemma StripThenBlank(k: string)
    requires PlainKey(k)
    ensures Strip(k + " ") == k
  {
    assert k + " " == [] + k + " ";
    StripPadded([], k, " ");
  }

  lemma StripBlankThen(v: string)
    requires PlainValue(v)
    ensures Strip(" " + v) == v
  {
    if v == [] {
      assert LStripSet(" ", Whitespace) == [];
    } else {
      assert " " + v == " " + v + [];
      StripPadded(" ", v, []);
    }
  }

  /** Every setting has a plain key and a plain value. */
  predicate PlainSettings(es: seq<(string, string)>)
  {
    forall i :: 0 <= i < |es| ==> PlainKey(es[i].0) && PlainValue(es[i].1)
  }

  lemma PlainSettingsCons(es: seq<(string, string)>)
    requires es != [] && PlainSettings(es)
    ensures PlainKey(es[0].0) && PlainValue(es[0].1) && PlainSettings(es[1..])
  {
    forall i | 0 <= i < |es| - 1 ensures PlainKey(es[1..][i].0) && PlainValue(es[1..][i].1) {
      assert es[1..][i] == es[i + 1];
    }
  }

  lemma {:induction false} ParseRendered(es: seq<(string, string)>)
    requires PlainSettings(es)
    ensures ParseConfigLines(RenderSettings(es) + [""]) == es
  {
    if es == [] {
      assert RenderSettings(es) + [""] == [""];
      assert ParseSetting("") == None;
    } else {
      var e, rest := es[0], es[1..];
      PlainSettingsCons(es);
      ParseOneSetting(e.0, e.1);
      assert e == (e.0, e.1);
      ParseRendered(rest);
      RenderedCons(es);
      ParseCons(RenderSettings(es) + [""], e);
      assert es == [e] + rest;
    }
  }

  lemma RenderedCons(es: seq<(string, string)>)
    requires es != []
    ensures (RenderSettings(es) + [""])[0] == RenderSetting(es[0])
    ensures (RenderSettings(es) + [""])[1..] == RenderSettings(es[1..]) + [""]
  {
  }

  lemma ParseCons(ls: seq<string>, e: (string, string))
    requires ls != [] && ParseSetting(ls[0]) == Some(e)
    ensures ParseConfigLines(ls) == [e] + ParseConfigLines(ls[1..])
  {
  }

  lemma IntToStringPlain(n: int)
    ensures PlainValue(IntToString(n))
  {
    var d := NatToString(if n < 0 then -n else n);
    assert IsDigit(d[0]) && IsDigit(d[|d| - 1]);
    assert '\n' !in d by {
      assert forall i :: 0 <= i < |d| ==> IsDigit(d[i]);
    }
  }

  /**
   * Round trip: a reader of `key = value` lines finds exactly the ten settings,
   * in order, with the box size fixed at 20, provided the CSV cells and paths
   * are single lines without blanks at their ends.
   */
  lemma ConfigRoundTrip(j: Job)
    requires PlainValue(j.receptorFile) && PlainValue(j.ligandFile) && PlainValue(j.outputPdbqt)
    requires PlainValue(j.cx) && PlainValue(j.cy) && PlainValue(j.cz)
    ensures ParseConfig(ConfigText(j)) == ConfigEntries(j)
  {
    var es := ConfigEntries(j);
    var ls := ConfigLines(j);
    ConfigEntriesPlain(j);
    ConfigLinesRendered(j);
    forall i | 0 <= i < |ls| ensures '\n' !in ls[i] {
      assert ls[i] == es[i].0 + " = " + es[i].1;
    }
    SplitTerminated(ls);
    ParseRendered(es);
  }

  lemma ConfigLinesRendered(j: Job)
    ensures ConfigLines(j) == RenderSettings(ConfigEntries(j))
  {
    var ls, es := ConfigLines(j), ConfigEntries(j);
    var rs := RenderSettings(es);
    assert "receptor = " == "receptor" + " = ";
    assert "ligand = " == "ligand" + " = ";
    assert "center_x = " == "center_x" + " = ";
    assert "center_y = " == "center_y" + " = ";
    assert "center_z = " == "center_z" + " = ";
    assert "size_x = 20" == "size_x" + " = " + "20";
    assert "size_y = 20" == "size_y" + " = " + "20";
    assert "size_z = 20" == "size_z" + " = " + "20";
    assert "num_modes = " == "num_modes" + " = ";
    assert "out = " == "out" + " = ";
    assert ls == rs;
  }

  /** Setting names: lower-case letters and underscores. */
  predicate KeyWord(k: string)
  {
    k != [] && forall i :: 0 <= i < |k| ==> IsLowerLetter(k[i]) || k[i] == '_'
  }

  lemma KeyWordPlain(k: string)
    requires KeyWord(k)
    ensures PlainKey(k)
  {
    assert !IsSpace(k[0]) && !IsSpace(k[|k| - 1]);
    assert forall c :: c in k ==> IsLowerLetter(c) || c == '_';
  }

  lemma ConfigEntriesPlain(j: Job)
    requires PlainValue(j.receptorFile) && PlainValue(j.ligandFile) && PlainValue(j.outputPdbqt)
    requires PlainValue(j.cx) && PlainValue(j.cy) && PlainValue(j.cz)
    ensures PlainSettings(ConfigEntries(j))
  {
    var es := ConfigEntries(j);
    IntToStringPlain(j.numModes);
    assert PlainValue("20");
    forall i | 0 <= i < |es| ensures PlainKey(es[i].0) {
      assert KeyWord(es[i].0);
      KeyWordPlain(es[i].0);
    }
  }

  // ---------- the job log and the ledger line ----------

  type Byte = b: int | 0 <= b < 256

  /** `b"\n--- STDERR ---\n"` */
  const StderrSeparator: seq<Byte> := [10, 45, 45, 45, 32, 83, 84, 68, 69, 82, 82, 32, 45, 45, 45, 10]

  /** What `run_docking` writes to `log.txt`: stdout if any, the separator only between two nonempty streams, stderr if any. */
  function LogBytes(stdout: seq<Byte>, stderr: seq<Byte>): (r: seq<Byte>)
    ensures |r| == |stdout| + |stderr| + (if stdout != [] && stderr != [] then |StderrSeparator| else 0)
    ensures r[..|stdout|] == stdout && r[|r| - |stderr|..] == stderr
    ensures stdout != [] && stderr != [] ==> r[|stdout|..|stdout| + |StderrSeparator|] == StderrSeparator
  {
    (if stdout != [] then stdout else [])
      + (if stderr != [] then (if stdout != [] then StderrSeparator else []) + stderr else [])
  }

  /** One Vina run as the oracle reports it: exit code, both streams, and stderr decoded with errors ignored. */
  datatype VinaRun = VinaRun(returnCode: int, stdout: seq<Byte>, stderr: seq<Byte>, stderrText: string)

  datatype Outcome = Outcome(ok: bool, line: string)

  /** `f"✅ {ligand} → {pdbid}"` */
  function SuccessLine(ligand: string, pdbid: string): string
  {
    "\U{2705} " + ligand + " \U{2192} " + pdbid
  }

  /** `f"❌ {ligand} vs {pdbid}: {err}"` */
  function FailureLine(ligand: string, pdbid: string, err: string): string
  {
    "\U{274C} " + ligand + " vs " + pdbid + ": " + err
  }

  /** The value `run_docking` returns: success exactly for exit code 0, with its ledger line. */
  function RunOutcome(j: Job, run: VinaRun): (o: Outcome)
    ensures o.ok <==> run.returnCode == 0
    ensures o.line != [] && (o.ok <==> o.line[0] == '\U{2705}') && (!o.ok <==> o.line[0] == '\U{274C}')
    ensures o.line == if o.ok then SuccessLine(j.ligand, j.pdbid) else FailureLine(j.ligand, j.pdbid, Strip(run.stderrText))
  {
    if run.returnCode == 0 then Outcome(true, SuccessLine(j.ligand, j.pdbid))
    else Outcome(false, FailureLine(j.ligand, j.pdbid, Strip(run.stderrText)))
  }

  // ---------- the completion loop ----------

  /** Which runs exited with 0. */
  function ExitedZero(runs: seq<VinaRun>): (r: seq<bool>)
    ensures |r| == |runs| && forall i :: 0 <= i < |runs| ==> (r[i] <==> runs[i].returnCode == 0)
  {
    seq(|runs|, i requires 0 <= i < |runs| => runs[i].returnCode == 0)
  }

  /**
   * The `as_completed` loop: one ledger line per finished job, appended to the
   * run log; the tallies count every job once, and `successes` is the number of
   * jobs whose run exited with 0, whatever the completion order.
   */
  method DrainCompleted(jobs: seq<Job>, runs: seq<VinaRun>, order: seq<nat>, runLog0: seq<string>)
    returns (successes: nat, failures: nat, doneCount: nat, resultsLog: seq<string>, runLog: seq<string>)
    requires |runs| == |jobs| && IsOrdering(order, |jobs|)
    ensures doneCount == |jobs| && successes + failures == doneCount
    ensures successes == |Marked(ExitedZero(runs))|
    ensures |resultsLog| == |jobs|
    ensures forall k :: 0 <= k < |jobs| ==> resultsLog[k] == RunOutcome(jobs[order[k]], runs[order[k]]).line
    ensures runLog == runLog0 + resultsLog
  {
    var flags := ExitedZero(runs);
    var lines := OutcomeLines(jobs, runs);
    successes, failures, doneCount, resultsLog := Tally(flags, lines, order);
    runLog := runLog0 + resultsLog;
    AmongAll(flags, order);
  }

  /** The ledger line of each job's run, by job index. */
  function OutcomeLines(jobs: seq<Job>, runs: seq<VinaRun>): (r: seq<string>)
    requires |runs| == |jobs|
    ensures |r| == |jobs| && forall i :: 0 <= i < |jobs| ==> r[i] == RunOutcome(jobs[i], runs[i]).line
  {
    seq(|jobs|, i requires 0 <= i < |jobs| => RunOutcome(jobs[i], runs[i]).line)
  }

  /** The loop body of `as_completed`, over each job's precomputed success flag and ledger line. */
  method Tally(flags: seq<bool>, lines: seq<string>, order: seq<nat>)
    returns (successes: nat, failures: nat, doneCount: nat, resultsLog: seq<string>)
    requires |lines| == |flags| && IsOrdering(order, |flags|)
    ensures doneCount == |order| && successes + failures == doneCount
    ensures successes == |Among(flags, order)|
    ensures |resultsLog| == |order| && forall k :: 0 <= k < |order| ==> resultsLog[k] == lines[order[k]]
  {
    successes, failures, doneCount := 0, 0, 0;
    resultsLog := [];
    while doneCount < |order|
      invariant doneCount <= |order|
      invariant successes + failures == doneCount
      invariant successes == |Among(flags, order[..doneCount])|
      invariant |resultsLog| == doneCount
      invariant forall k :: 0 <= k < doneCount ==> resultsLog[k] == lines[order[k]]
    {
      var idx := order[doneCount];
      resultsLog := resultsLog + [lines[idx]];
      AmongStep(flags, order, doneCount);
      if flags[idx] {
        successes := successes + 1;
      } else {
        failures := failures + 1;
      }
      doneCount := doneCount + 1;
    }
    assert order[..doneCount] == order;
  }

  // ---------- fatal input conditions ----------

  datatype Fatal = MissingColumns | NoLigands | NoJobs

  /** What the run has set up when it reaches the pool: its folder, its log, the jobs and the log lines so far. */
  datatype Prepared = Prepared(resultsDir: string, runLogPath: string, jobs: seq<Job>, runLog: seq<string>)

  /**
   * `main` up to the pool: the header check (ValueError), the run's folder
   * and log named from the tags, the ligand glob (FileNotFoundError), the row
   * loop, and the zero-jobs check (RuntimeError), in that order.
   */
  method PrepareRun(t: CentersTable, fs: set<string>, cwd: string, receptorDir: string, ligandDir: string,
                    entries: seq<string>, numModes: int, timestamp: string)
    returns (r: Result<Prepared, Fatal>)
    requires RowsKeyed(t)
    ensures !HasRequiredColumns(t.fieldnames) <==> r == Err(MissingColumns)
    ensures r == Err(NoLigands) <==> HasRequiredColumns(t.fieldnames) && LigandNames(ligandDir, entries) == []
    ensures HasRequiredColumns(t.fieldnames) && LigandNames(ligandDir, entries) != [] ==>
      var stem := StemOf(receptorDir, ligandDir, numModes, timestamp);
      var st := Setup(fs, receptorDir, ligandDir, ResultsDir(cwd, stem), LigandNames(ligandDir, entries), numModes);
      var jobs := Jobs(st, CenterRows(t));
      && (jobs == [] <==> r == Err(NoJobs))
      && (jobs != [] ==> r == Ok(Prepared(ResultsDir(cwd, stem), RunLogPath(cwd, stem), jobs, MissingLog(st, CenterRows(t)))))
  {
    if !HasRequiredColumns(t.fieldnames) {
      return Err(MissingColumns);
    }
    var stem := StemOf(receptorDir, ligandDir, numModes, timestamp);
    var resultsDir := ResultsDir(cwd, stem);
    var runLogPath := RunLogPath(cwd, stem);
    var ligands := LigandNames(ligandDir, entries);
    if ligands == [] {
      return Err(NoLigands);
    }
    var st := Setup(fs, receptorDir, ligandDir, resultsDir, ligands, numModes);
    var jobs, runLog := BuildJobs(st, CenterRows(t));
    if jobs == [] {
      return Err(NoJobs);
    }
    r := Ok(Prepared(resultsDir, runLogPath, jobs, runLog));
  }

  /** Joining a name that is not absolute keeps the folder as a prefix, followed by `/` when the folder lacks one. */
  lemma JoinUnder(a: string, b: string)
    requires a != [] && a[|a| - 1] != '/' && (b == [] || b[0] != '/')
    ensures StartsWith(JoinPath(a, b), a + "/")
  {
    assert JoinPath(a, b) == a + "/" + b;
  }

  lemma JoinKeeps(a: string, b: string, p: string)
    requires StartsWith(a, p) && (b == [] || b[0] != '/')
    ensures StartsWith(JoinPath(a, b), p)
  {
    assert JoinPath(a, b)[..|a|] == a;
  }

  /**
   * Every output of a job lies inside the run's results folder: its pose
   * file, its log and its config are all below `Docking_Results_<stem>/`.
   */
  lemma {:induction false} JobOutputsInResults(cwd: string, receptorDir: string, ligandDir: string, numModes: int,
                                              timestamp: string, st: Setup, row: CenterRow, receptorFile: string, ligand: string)
    requires '/' !in timestamp && '/' !in ligand
    requires st.resultsDir == ResultsDir(cwd, StemOf(receptorDir, ligandDir, numModes, timestamp))
    ensures var j := MakeJob(st, row, receptorFile, ligand);
      && StartsWith(j.outputPdbqt, st.resultsDir + "/")
      && StartsWith(j.outputLog, st.resultsDir + "/")
      && StartsWith(j.configPath, st.resultsDir + "/")
  {
    StemHasNoSlash(ReceptorTag(receptorDir), LigandTag(ligandDir), numModes, timestamp);
    RunNamesInCwd(cwd, StemOf(receptorDir, ligandDir, numModes, timestamp));
    var safe := SafePdbid(receptorFile);
    assert safe == [] || safe[0] != '/' by {
      SafePdbidNoSlash(receptorFile);
    }
    var d := JoinPath(st.resultsDir, safe);
    JoinUnder(st.resultsDir, safe);
    var sub := JoinPath(d, ligand);
    assert ligand == [] || ligand[0] != '/' by {
      if ligand != [] { assert ligand[0] in ligand; }
    }
    JoinKeeps(d, ligand, st.resultsDir + "/");
    JoinKeeps(sub, "out.pdbqt", st.resultsDir + "/");
    JoinKeeps(sub, "log.txt", st.resultsDir + "/");
    JoinKeeps(sub, "config.txt", st.resultsDir + "/");
  }

  lemma SafePdbidNoSlash(receptorFile: string)
    ensures '/' !in SafePdbid(receptorFile)
  {
    var b := Basename(receptorFile);
    ReplaceKeepsAbsent(b, ".pdbqt", "", '/');
    ReplaceKeepsAbsent(ReplaceAll(b, ".pdbqt", ""), ".pdb", "", '/');
    ReplaceKeepsAbsent(ReplaceAll(ReplaceAll(b, ".pdbqt", ""), ".pdb", ""), ".mol2", "", '/');
  }

  /**
   * With globbed ligand names, the RuntimeError fires exactly when no centre row
   * resolves to a receptor file.
   */
  lemma NoJobsIffNoReceptor(t: CentersTable, fs: set<string>, receptorDir: string, ligandDir: string,
                            resultsDir: string, entries: seq<string>, numModes: int)
    requires HasRequiredColumns(t.fieldnames) && RowsKeyed(t)
    requires forall k :: 0 <= k < |entries| ==> '/' !in entries[k] && JoinPath(ligandDir, entries[k]) in fs
    requires LigandNames(ligandDir, entries) != []
    ensures var st := Setup(fs, receptorDir, ligandDir, resultsDir, LigandNames(ligandDir, entries), numModes);
      Jobs(st, CenterRows(t)) == [] <==> ResolvedRows(st, CenterRows(t)) == []
  {
    var st := Setup(fs, receptorDir, ligandDir, resultsDir, LigandNames(ligandDir, entries), numModes);
    GlobbedLigandsPresent(fs, ligandDir, entries);
    JobsEmptyIff(st, CenterRows(t));
  }

  lemma JobsEmptyIff(st: Setup, rows: seq<CenterRow>)
    requires LigandsPresent(st) && st.ligands != []
    ensures Jobs(st, rows) == [] <==> ResolvedRows(st, rows) == []
  {
    JobsRowMajor(st, rows);
    var n, l := |ResolvedRows(st, rows)|, |st.ligands|;
    assert |Jobs(st, rows)| == n * l;
    if n > 0 {
      MulPositive(n, l);
    }
  }

  lemma MulPositive(a: nat, b: nat)
    requires a > 0 && b > 0
    ensures a * b > 0
  {
    assert a * b >= b by {
      assert a * b == (a - 1) * b + b;
    }
  }
}
