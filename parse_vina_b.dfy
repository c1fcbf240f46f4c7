/**
 * 4B_Parse_VinaResults.py: builds the list of `(receptor, ligand, out.pdbqt)`
 * targets from the docking run log (ledger mode) or by walking the results
 * tree (crawl mode), parses each target's Vina poses, counts processed targets
 * and hits while draining the thread pool, and sorts the collected rows by
 * (receptor, affinity).
 *
 * Files are a map from path to what reading them delivers; a path is a file
 * exactly when it is in the map. Completion order is a permutation of the
 * targets.
 */
module ParseVinaB {
  import opened Wrappers
  import opened Text
  import opened Paths
  import opened Sorting
  import opened Completion
  import opened VinaResults
  import opened Ledger
  import opened ResultsTree
  import opened Sanitize
  import BatchDocking

  /** A target `(receptor, ligand, path)`. */
  datatype Target = Target(receptor: string, ligand: string, path: string)

  /** A row of the results table: `(receptor, ligand, pose_idx, affinity)`. */
  datatype Row = Row(receptor: string, ligand: string, pose: nat, affinity: real)

  // ---------- ledger mode ----------

  /**
   * The target for a matched ledger line `(ligand_dir, receptor_file)`: the
   * receptor folder is the receptor file without `.pdbqt`, `.pdb`, `.mol2`,
   * and the pose file is `results_dir / receptor_dir / ligand_dir / "out.pdbqt"`.
   */
  function LedgerTarget(resultsDir: string, pair: (string, string)): (t: Target)
    ensures t.receptor == BatchDocking.StripReceptorExt(pair.1) && t.ligand == pair.0
    ensures Basename(t.path) == "out.pdbqt"
  {
    var receptorDir := BatchDocking.StripReceptorExt(pair.1);
    BasenameOfJoin(JoinPath(JoinPath(resultsDir, receptorDir), pair.0), "out.pdbqt");
    Target(receptorDir, pair.0, JoinPath(JoinPath(JoinPath(resultsDir, receptorDir), pair.0), "out.pdbqt"))
  }

  /**
   * The ledger finds the docking run's own output: for a row whose receptor
   * resolved, the target built from `(ligand, PDB_ID)` is the job's
   * `out.pdbqt`, because the receptor folder the docking run wrote to is the
   * resolved file's base name without extensions, and that is the PDB_ID
   * without extensions.
   */
  lemma {:induction false} LedgerFindsJobOutput(st: BatchDocking.Setup, row: BatchDocking.CenterRow, ligand: string)
    requires '/' !in row.pdbid && BatchDocking.ResolvedReceptor(st.fs, st.receptorDir, row.pdbid).Some?
    ensures var j := BatchDocking.MakeJob(st, row, BatchDocking.ResolvedReceptor(st.fs, st.receptorDir, row.pdbid).value, ligand);
      LedgerTarget(st.resultsDir, (j.ligand, j.pdbid)).path == j.outputPdbqt
  {
    BatchDocking.SafePdbidOfResolved(st.fs, st.receptorDir, row.pdbid);
  }

  /**
   * A success line the docking run writes for a job is read back as the
   * target pointing at that job's `out.pdbqt`, when the ligand name has no
   * surrounding blanks or arrows and the PDB_ID is made of safe characters.
   */
  lemma {:induction false} SuccessLineFindsJobOutput(st: BatchDocking.Setup, row: BatchDocking.CenterRow, ligand: string)
    requires PlainLigand(ligand) && row.pdbid != [] && AllSafe(row.pdbid)
    requires BatchDocking.ResolvedReceptor(st.fs, st.receptorDir, row.pdbid).Some?
    ensures var j := BatchDocking.MakeJob(st, row, BatchDocking.ResolvedReceptor(st.fs, st.receptorDir, row.pdbid).value, ligand);
      var t := LineTarget(st.resultsDir, BatchDocking.SuccessLine(j.ligand, j.pdbid) + "\n");
      t.Some? && t.value.ligand == ligand && t.value.path == j.outputPdbqt
  {
    var j := BatchDocking.MakeJob(st, row, BatchDocking.ResolvedReceptor(st.fs, st.receptorDir, row.pdbid).value, ligand);
    LedgerFindsJobOutput(st, row, ligand);
    SuccessLineFindsOutput(st.resultsDir, j);
  }

  /** The success line of a job whose ledger target is its `out.pdbqt` is read back as that file. */
  lemma SuccessLineFindsOutput(resultsDir: string, j: BatchDocking.Job)
    requires PlainLigand(j.ligand) && j.pdbid != [] && AllSafe(j.pdbid)
    requires LedgerTarget(resultsDir, (j.ligand, j.pdbid)).path == j.outputPdbqt
    ensures var t := LineTarget(resultsDir, BatchDocking.SuccessLine(j.ligand, j.pdbid) + "\n");
      t.Some? && t.value.ligand == j.ligand && t.value.path == j.outputPdbqt
  {
    SuccessLineIsText(j.ligand, j.pdbid);
    SuccessTextTarget(resultsDir, j.ligand, j.pdbid);
  }

  /** The run's success line is the text the ledger's `OK_LINE` is written for. */
  lemma SuccessLineIsText(ligand: string, pdbid: string)
    ensures BatchDocking.SuccessLine(ligand, pdbid) == SuccessText(ligand, pdbid)
  {
  }

  /** A success line for `(ligand, pdbid)` yields the ledger target built from that pair. */
  lemma SuccessTextTarget(resultsDir: string, ligand: string, pdbid: string)
    requires PlainLigand(ligand) && pdbid != [] && AllSafe(pdbid)
    ensures LineTarget(resultsDir, SuccessText(ligand, pdbid) + "\n") == Some(LedgerTarget(resultsDir, (ligand, pdbid)))
  {
    SuccessLineReadBack(ligand, pdbid);
  }

  /** The target of one log line, when it passes the prefilter and matches `OK_LINE`. */
  function LineTarget(resultsDir: string, line: string): Option<Target>
  {
    match LedgerPair(line)
    case Some(pair) => Some(LedgerTarget(resultsDir, pair))
    case None => None
  }

  /** The targets of the log lines, in file order. */
  function LedgerTargets(resultsDir: string, lines: seq<string>): seq<Target>
  {
    FilterMap(line => LineTarget(resultsDir, line), lines)
  }

  /** The `for line in lf` loop appending to `ok_pairs`. */
  method ReadLedger(resultsDir: string, lines: seq<string>) returns (okPairs: seq<Target>)
    ensures okPairs == LedgerTargets(resultsDir, lines)
  {
    okPairs := [];
    var i := 0;
    while i < |lines|
      invariant i <= |lines| && okPairs == LedgerTargets(resultsDir, lines[..i])
    {
      assert lines[..i + 1][..i] == lines[..i];
      var m := LedgerPair(lines[i]);
      if m.Some? {
        okPairs := okPairs + [LedgerTarget(resultsDir, m.value)];
      }
      i := i + 1;
    }
    assert lines[..i] == lines;
  }

  /** A target comes from the ledger exactly when some log line matched with a pair giving it. */
  lemma LedgerTargetsFrom(resultsDir: string, lines: seq<string>, t: Target)
    ensures t in LedgerTargets(resultsDir, lines) <==>
      exists i :: 0 <= i < |lines| && LedgerPair(lines[i]).Some? && t == LedgerTarget(resultsDir, LedgerPair(lines[i]).value)
  {
    FilterMapFrom(line => LineTarget(resultsDir, line), lines, t);
  }

  // ---------- crawl mode ----------

  /** `(p.parent.parent.name, p.parent.name, p)` for a found `out.pdbqt`. */
  function CrawlTarget(f: Found): Target
  {
    Target(GrandparentName(f), ParentName(f), FoundPath(f))
  }

  /** Every `out.pdbqt` under the scope directories, hidden subdirectories pruned. */
  function CrawlTargets(scopes: seq<Scope>): (r: seq<Target>)
    ensures |r| == |FindScopes(scopes, WalkFor("out.pdbqt"))|
  {
    var found := FindScopes(scopes, WalkFor("out.pdbqt"));
    seq(|found|, i requires 0 <= i < |found| => CrawlTarget(found[i]))
  }

  /** Crawl mode finds an `out.pdbqt` exactly when it sits under a scope below no hidden subdirectory. */
  lemma CrawlTargetsExactly(scopes: seq<Scope>, i: nat, rel: seq<string>)
    requires i < |scopes|
    ensures Located(scopes[i].tree, rel, "out.pdbqt", WalkFor("out.pdbqt")) ==>
      CrawlTarget(Found(scopes[i].dir + rel, "out.pdbqt")) in CrawlTargets(scopes)
  {
    var found := FindScopes(scopes, WalkFor("out.pdbqt"));
    if Located(scopes[i].tree, rel, "out.pdbqt", WalkFor("out.pdbqt")) {
      FindScopesComplete(scopes, WalkFor("out.pdbqt"), i, rel, "out.pdbqt");
      var k :| 0 <= k < |found| && found[k] == Found(scopes[i].dir + rel, "out.pdbqt");
      assert CrawlTargets(scopes)[k] == CrawlTarget(found[k]);
    }
  }

  /** Every crawl target is an `out.pdbqt` located under one of the scopes. */
  lemma CrawlTargetsSound(scopes: seq<Scope>, k: nat)
    requires k < |CrawlTargets(scopes)|
    ensures var f := FindScopes(scopes, WalkFor("out.pdbqt"))[k];
      f.file == "out.pdbqt" && CrawlTargets(scopes)[k] == CrawlTarget(f)
      && exists i :: 0 <= i < |scopes| && |scopes[i].dir| <= |f.dir| && f.dir[..|scopes[i].dir|] == scopes[i].dir
                  && Located(scopes[i].tree, f.dir[|scopes[i].dir|..], f.file, WalkFor("out.pdbqt"))
  {
    var f := FindScopes(scopes, WalkFor("out.pdbqt"))[k];
    var i := FindScopesSound(scopes, WalkFor("out.pdbqt"), f);
    LocatedExactName(scopes[i].tree, f.dir[|scopes[i].dir|..], f.file, "out.pdbqt");
  }

  /** What an exact-name walk locates has that name. */
  lemma {:induction false} LocatedExactName(t: Tree, rel: seq<string>, x: string, name: string)
    requires Located(t, rel, x, WalkFor(name))
    ensures x == name
    decreases |rel|
  {
    if rel != [] {
      var k :| 0 <= k < |t.subdirs| && Enters(t, k, WalkFor(name)) && t.subdirs[k].name == rel[0]
        && Located(t.subdirs[k], rel[1..], x, WalkFor(name));
      LocatedExactName(t.subdirs[k], rel[1..], x, name);
    }
  }

  // ---------- target list ----------

  /** Where the targets come from: the `--from-log` file (whether it is a file, and its lines) or a crawl. */
  datatype Source = FromLog(logIsFile: bool, lines: seq<string>) | Crawl(scopes: seq<Scope>)

  /** The target list, or the exit code: 1 for a missing log, 2 when no target was found. */
  function Targets(resultsDir: string, src: Source): (r: Result<seq<Target>, int>)
    ensures r.Err? ==> r.error == 1 || r.error == 2
    ensures src.FromLog? ==> (r == Err(1) <==> !src.logIsFile)
    ensures src.FromLog? && src.logIsFile ==> (r == Err(2) <==> LedgerTargets(resultsDir, src.lines) == [])
    ensures src.Crawl? ==> (r == Err(2) <==> CrawlTargets(src.scopes) == [])
    ensures r.Ok? ==> r.value != []
    ensures r.Ok? && src.FromLog? ==> r.value == LedgerTargets(resultsDir, src.lines)
    ensures r.Ok? && src.Crawl? ==> r.value == CrawlTargets(src.scopes)
  {
    match src
    case FromLog(isFile, lines) =>
      if !isFile then Err(1)
      else
        var t := LedgerTargets(resultsDir, lines);
        if t == [] then Err(2) else Ok(t)
    case Crawl(scopes) =>
      var t := CrawlTargets(scopes);
      if t == [] then Err(2) else Ok(t)
  }

  // ---------- work and the drain loop ----------

  /**
   * `work`: no rows and no hit when the path is not a file; otherwise one row
   * per pose read (the poses gathered before any exception), and a hit iff
   * there is a pose.
   */
  function Work(t: Target, files: map<string, FileRead>): (r: (seq<Row>, bool))
    ensures t.path !in files ==> r == ([], false)
    ensures r.1 <==> r.0 != []
    ensures t.path in files ==> var poses := Poses(files[t.path].lines);
      |r.0| == |poses| && forall k :: 0 <= k < |r.0| ==> r.0[k] == Row(t.receptor, t.ligand, k + 1, DecimalValue(poses[k].affinity))
  {
    if t.path !in files then ([], false)
    else
      var poses := Poses(files[t.path].lines);
      var rows := seq(|poses|, k requires 0 <= k < |poses| => Row(t.receptor, t.ligand, poses[k].index, DecimalValue(poses[k].affinity)));
      (rows, poses != [])
  }

  /** `work` with the files fixed, as submitted to the pool. */
  function Worker(files: map<string, FileRead>): Target -> (seq<Row>, bool)
  {
    t => Work(t, files)
  }

  function Max(a: int, b: int): int { if a >= b then a else b }

  /**
   * The `as_completed` loop: `processed` counts every target once, `hits` the
   * targets with poses, `rows_buffer` holds their rows in completion order,
   * and with `write_parse_log` a heartbeat fires whenever
   * `processed % max(1, heartbeat) == 0`.
   */
  method Drain(targets: seq<Target>, files: map<string, FileRead>, order: seq<nat>, log: bool, heartbeat: int)
    returns (processed: nat, hits: nat, rows: seq<Row>, beats: seq<nat>)
    requires IsOrdering(order, |targets|)
    ensures processed == |targets| && hits <= processed
    ensures hits == |Marked(HitsOf(targets, Worker(files)))|
    ensures rows == Gathered(RowsOf(targets, Worker(files)), order)
    ensures beats == if log then Heartbeats(processed, Max(1, heartbeat)) else []
  {
    processed, hits, rows, beats := DrainParts(RowsOf(targets, Worker(files)), HitsOf(targets, Worker(files)), order, log, Max(1, heartbeat));
  }

  /** The loop itself, over each future's result: its rows and whether it had poses. */
  method DrainParts(parts: seq<seq<Row>>, flags: seq<bool>, order: seq<nat>, log: bool, every: nat)
    returns (processed: nat, hits: nat, rows: seq<Row>, beats: seq<nat>)
    requires |parts| == |flags| && IsOrdering(order, |flags|) && every >= 1
    ensures processed == |flags| && hits <= processed
    ensures hits == |Marked(flags)|
    ensures rows == Gathered(parts, order)
    ensures beats == if log then Heartbeats(processed, every) else []
  {
    var done, found, buffer, fired := 0, 0, [], [];
    while done < |order|
      invariant done <= |order| && found <= done
      invariant found == |Among(flags, order[..done])|
      invariant buffer == Gathered(parts, order[..done])
      invariant fired == if log then Heartbeats(done, every) else []
    {
      buffer, found := Collect(parts, flags, order, done, buffer, found);
      fired := Heartbeat(fired, done, log, every);
      done := done + 1;
    }
    assert order[..done] == order;
    assert found == |Marked(flags)| by {
      AmongAll(flags, order);
    }
    processed, hits, rows, beats := done, found, buffer, fired;
  }

  /**
   * One future's result, the `order[done]`-th target's: `rows_buffer.extend(out_rows)`
   * when it has rows, and `hits += 1` when it had poses.
   */
  method Collect(parts: seq<seq<Row>>, flags: seq<bool>, order: seq<nat>, done: nat, buffer: seq<Row>, found: nat)
    returns (buffer': seq<Row>, found': nat)
    requires |parts| == |flags| && IsOrdering(order, |flags|) && done < |order|
    requires buffer == Gathered(parts, order[..done]) && found == |Among(flags, order[..done])|
    ensures buffer' == Gathered(parts, order[..done + 1]) && found' == |Among(flags, order[..done + 1])|
    ensures found' <= found + 1
  {
    var idx := order[done];
    var outRows, hasResults := parts[idx], flags[idx];
    buffer', found' := buffer, found;
    if outRows != [] {
      buffer' := buffer' + outRows;
    }
    if hasResults {
      found' := found' + 1;
    }
    GatheredStep(parts, order, done);
    AmongStep(flags, order, done);
  }

  /**
   * `processed += 1` then `if write_parse_log and processed % heartbeat == 0`:
   * with the log on, the progress line after every `every`-th result, given
   * the results drained before this one; with it off, none.
   */
  method Heartbeat(fired: seq<nat>, before: nat, log: bool, every: nat) returns (next: seq<nat>)
    requires every >= 1 && fired == if log then Heartbeats(before, every) else []
    ensures next == if log then Heartbeats(before + 1, every) else []
  {
    next := fired;
    if log && (before + 1) % every == 0 {
      next := next + [before + 1];
    }
  }

  // ---------- the final table ----------

  /** `(r[0], float(r[3]))`: every affinity is a float, so the `1e9` fallback never applies. */
  function RowKey(r: Row): Key
  {
    Key(r.receptor, r.affinity)
  }

  predicate RowLe(a: Row, b: Row)
  {
    KeyLe(RowKey(a), RowKey(b))
  }

  lemma RowLeTotalPreorder()
    ensures TotalPreorder(RowLe)
  {
    forall a: Row, b: Row ensures RowLe(a, b) || RowLe(b, a) {
      KeyLeTotal(RowKey(a), RowKey(b));
    }
    forall a: Row, b: Row, c: Row | RowLe(a, b) && RowLe(b, c) ensures RowLe(a, c) {
      KeyLeTransitive(RowKey(a), RowKey(b), RowKey(c));
    }
  }

  /** `rows_buffer.sort(key=...)` */
  function FinalTable(rows: seq<Row>): seq<Row>
  {
    SortBy(rows, RowLe)
  }

  /**
   * The final table holds the collected rows, each as often as collected;
   * receptors come in ascending order and, within a receptor, affinities
   * ascend; rows with equal keys keep their completion order.
   */
  lemma FinalTableOrdered(rows: seq<Row>)
    ensures multiset(FinalTable(rows)) == multiset(rows)
    ensures var t := FinalTable(rows);
      forall i, j :: 0 <= i < j < |t| ==>
        LexLe(t[i].receptor, t[j].receptor)
        && (t[i].receptor == t[j].receptor ==> t[i].affinity <= t[j].affinity)
    ensures forall c :: SameKey(FinalTable(rows), RowLe, c) == SameKey(rows, RowLe, c)
  {
    RowLeTotalPreorder();
    SortBySorted(rows, RowLe);
    var t := FinalTable(rows);
    forall i, j | 0 <= i < j < |t|
      ensures LexLe(t[i].receptor, t[j].receptor)
      ensures t[i].receptor == t[j].receptor ==> t[i].affinity <= t[j].affinity
    {
      KeyLeMeans(RowKey(t[i]), RowKey(t[j]));
    }
    forall c ensures SameKey(FinalTable(rows), RowLe, c) == SameKey(rows, RowLe, c) {
      SortByStable(rows, RowLe, c);
    }
  }

  /** The final table holds the same rows whatever order the workers finished in. */
  lemma FinalTableAnyOrder(targets: seq<Target>, files: map<string, FileRead>, order: seq<nat>)
    requires IsOrdering(order, |targets|)
    ensures multiset(FinalTable(Gathered(RowsOf(targets, Worker(files)), order)))
         == multiset(Gathered(RowsOf(targets, Worker(files)), Indices(|targets|)))
  {
    GatheredAnyOrder(RowsOf(targets, Worker(files)), order);
  }

  /**
   * The header of the sorted CSV. It names five columns while each row
   * carries the four fields of `Row`: `OutFile` stays empty.
   */
  const Header: seq<string> := ["Receptor", "Ligand", "Pose", "Binding_Affinity", "OutFile"]

  // ---------- the whole run ----------

  /** What a run produces: the counters, the heartbeats, and the sorted table unless `--no-sort`. */
  datatype Report = Report(processed: nat, hits: nat, beats: seq<nat>, table: Option<seq<Row>>)

  /**
   * `main` after argument handling: the target list (exit 1 or 2 when it
   * fails), the drain loop, then the final sort unless `--no-sort`.
   */
  method ParseResults(resultsDir: string, src: Source, files: map<string, FileRead>, order: seq<nat>,
                      log: bool, heartbeat: int, noSort: bool)
    returns (r: Result<Report, int>)
    requires Targets(resultsDir, src).Ok? ==> IsOrdering(order, |Targets(resultsDir, src).value|)
    ensures Targets(resultsDir, src).Err? ==> r == Err(Targets(resultsDir, src).error)
    ensures Targets(resultsDir, src).Ok? ==> var targets := Targets(resultsDir, src).value;
      && r.Ok? && r.value.processed == |targets| && r.value.hits <= r.value.processed
      && r.value.hits == |Marked(HitsOf(targets, Worker(files)))|
      && r.value.beats == (if log then Heartbeats(|targets|, Max(1, heartbeat)) else [])
      && r.value.table == if noSort then None else Some(FinalTable(Gathered(RowsOf(targets, Worker(files)), order)))
  {
    var t := Targets(resultsDir, src);
    if t.Err? {
      return Err(t.error);
    }
    var processed, hits, rows, beats := Drain(t.value, files, order, log, heartbeat);
    if noSort {
      return Ok(Report(processed, hits, beats, None));
    }
    r := Ok(Report(processed, hits, beats, Some(FinalTable(rows))));
  }

  // ---------- what the docking run left behind ----------

  /** The entries `Path(".").glob("*<suffix>")` matches among the working folder's entry names. */
  function GlobSuffix(suffix: string): string -> bool
  {
    name => EndsWith(name, suffix)
  }

  /** The logs offered: `sorted(glob("run_log_*")) + sorted(glob("*.log"))` over the working folder's entry names. */
  function LogCandidates(entries: seq<string>): (r: seq<string>)
    ensures forall n :: n in r <==> n in entries && (StartsWith(n, "run_log_") || EndsWith(n, ".log"))
  {
    var runLogs := Filter(entries, GlobPrefix("run_log_"));
    var dotLogs := Filter(entries, GlobSuffix(".log"));
    forall n ensures n in SortBy(runLogs, LexLe) <==> n in entries && StartsWith(n, "run_log_") {
      assert n in SortBy(runLogs, LexLe) <==> n in multiset(SortBy(runLogs, LexLe));
      FilterMembers(entries, GlobPrefix("run_log_"), n);
    }
    forall n ensures n in SortBy(dotLogs, LexLe) <==> n in entries && EndsWith(n, ".log") {
      assert n in SortBy(dotLogs, LexLe) <==> n in multiset(SortBy(dotLogs, LexLe));
      FilterMembers(entries, GlobSuffix(".log"), n);
    }
    SortBy(runLogs, LexLe) + SortBy(dotLogs, LexLe)
  }

  /**
   * Run from the folder the docking run was started in, the parser offers
   * that run's results folder: its name is `Docking_Results_<stem>`, which the
   * `Docking_Results_*` glob matches once the folder exists.
   */
  lemma {:induction false} DockingFolderOffered(cwd: string, receptorDir: string, ligandDir: string, numModes: int,
                                               timestamp: string, entries: seq<string>, dirs: set<string>)
    requires '/' !in timestamp
    requires var name := Basename(BatchDocking.ResultsDir(cwd, BatchDocking.StemOf(receptorDir, ligandDir, numModes, timestamp)));
      name in entries && name in dirs
    ensures Basename(BatchDocking.ResultsDir(cwd, BatchDocking.StemOf(receptorDir, ligandDir, numModes, timestamp)))
      in FindCandidates(entries, dirs)
  {
    var stem := BatchDocking.StemOf(receptorDir, ligandDir, numModes, timestamp);
    BatchDocking.StemHasNoSlash(BatchDocking.ReceptorTag(receptorDir), BatchDocking.LigandTag(ligandDir), numModes, timestamp);
    BatchDocking.RunNamesInCwd(cwd, stem);
  }

  /**
   * Run from the same folder, the parser offers that run's log among the
   * `run_log_*` candidates, whether or not it also ends in `.log`.
   */
  lemma {:induction false} RunLogOffered(cwd: string, receptorDir: string, ligandDir: string, numModes: int,
                                        timestamp: string, entries: seq<string>)
    requires '/' !in timestamp
    requires Basename(BatchDocking.RunLogPath(cwd, BatchDocking.StemOf(receptorDir, ligandDir, numModes, timestamp))) in entries
    ensures Basename(BatchDocking.RunLogPath(cwd, BatchDocking.StemOf(receptorDir, ligandDir, numModes, timestamp)))
      in LogCandidates(entries)
  {
    var stem := BatchDocking.StemOf(receptorDir, ligandDir, numModes, timestamp);
    BatchDocking.StemHasNoSlash(BatchDocking.ReceptorTag(receptorDir), BatchDocking.LigandTag(ligandDir), numModes, timestamp);
    BatchDocking.RunNamesInCwd(cwd, stem);
  }

  /** The docking run's job `n` is read back from its success line as the target for its `out.pdbqt`. */
  lemma {:induction false} JobSuccessReadsBack(st: BatchDocking.Setup, rows: seq<BatchDocking.CenterRow>, n: nat)
    requires BatchDocking.LigandsPresent(st) && forall k :: 0 <= k < |st.ligands| ==> PlainLigand(st.ligands[k])
    requires forall row :: row in rows ==> row.pdbid != [] && AllSafe(row.pdbid)
    requires n < |BatchDocking.Jobs(st, rows)|
    ensures var j := BatchDocking.Jobs(st, rows)[n];
      var t := LineTarget(st.resultsDir, BatchDocking.SuccessLine(j.ligand, j.pdbid) + "\n");
      t.Some? && t.value.ligand == j.ligand && t.value.path == j.outputPdbqt
  {
    var js := BatchDocking.Jobs(st, rows);
    var rr := BatchDocking.ResolvedRows(st, rows);
    BatchDocking.JobsRowMajor(st, rows);
    BatchDocking.ResolvedRowsResolve(st, rows);
    var i, k := BatchDocking.JobAt(st, js, rr, n);
    SuccessLineFindsJobOutput(st, rr[i].row, st.ligands[k]);
  }

  /**
   * Every success line the docking run's completion loop writes to the run
   * log, in whatever order the jobs finished, is read back by ledger mode as
   * the target for that job's `out.pdbqt`.
   */
  lemma {:induction false} DrainedSuccessesReadBack(st: BatchDocking.Setup, rows: seq<BatchDocking.CenterRow>,
                                                   runs: seq<BatchDocking.VinaRun>, order: seq<nat>, resultsLog: seq<string>)
    requires BatchDocking.LigandsPresent(st) && forall k :: 0 <= k < |st.ligands| ==> PlainLigand(st.ligands[k])
    requires forall row :: row in rows ==> row.pdbid != [] && AllSafe(row.pdbid)
    requires var jobs := BatchDocking.Jobs(st, rows);
      && |runs| == |jobs| && IsOrdering(order, |jobs|) && |resultsLog| == |jobs|
      && forall k :: 0 <= k < |jobs| ==> resultsLog[k] == BatchDocking.RunOutcome(jobs[order[k]], runs[order[k]]).line
    ensures var jobs := BatchDocking.Jobs(st, rows);
      forall k :: 0 <= k < |jobs| && runs[order[k]].returnCode == 0 ==>
        var t := LineTarget(st.resultsDir, resultsLog[k] + "\n");
        t.Some? && t.value.path == jobs[order[k]].outputPdbqt
  {
    var jobs := BatchDocking.Jobs(st, rows);
    forall k | 0 <= k < |jobs| && runs[order[k]].returnCode == 0
      ensures var t := LineTarget(st.resultsDir, resultsLog[k] + "\n");
        t.Some? && t.value.path == jobs[order[k]].outputPdbqt
    {
      JobSuccessReadsBack(st, rows, order[k]);
    }
  }
}
