/**
 * The LSF job files the web front end writes for a workspace: the shared
 * header, the conformer-generation body chosen by ligand mode, the docking
 * body, and the one-line submitters. Writing files becomes returning a map
 * from file name to text.
 */
module LsfTemplates {
  import opened Wrappers
  import opened Text
  import opened Paths
  import opened Sanitize
  import ConfgenBatch

  // ---------- names ----------

  /** `sanitize_name(name)`: each run of characters outside `[A-Za-z0-9._-]` becomes one `_`, over the whole string. */
  function SanitizeName(name: string): (r: string)
    ensures AllSafe(r) && '\n' !in r && '/' !in r
  {
    var r := CollapseRuns(name);
    assert !SafeChar('\n') && !SafeChar('/');
    r
  }

  lemma SanitizeNameIdempotent(name: string)
    ensures SanitizeName(SanitizeName(name)) == SanitizeName(name)
  {
    CollapseIdempotent(name);
  }

  /**
   * Unlike the batch script's sanitiser, this one keeps the directories: a
   * slash is an unsafe run of its own.
   */
  lemma SanitizersDifferOnPaths()
    ensures SanitizeName("a/b") == "a_b"
    ensures ConfgenBatch.SanitizeName("a/b") == "b"
  {
    assert "a/b" == ['a'] + "/b";
    assert "/b"[1..] == "b";
    assert DropUnsafe("b") == "b";
    assert CollapseRuns("b") == "b";
    ConfgenBatch.SanitizeNameOfChild("a", "b");
  }

  // ---------- the header ----------

  /** The values every header is filled with. */
  datatype LsfParams = LsfParams(
    timestamp: string, project: string, walltime: string, queue: string,
    workers: int, memPerCore: int, email: string, envLine: string)

  /** The header template's lines up to the Conda line and the blank line after it. */
  function HeaderLines(p: LsfParams, jobname: string): (r: seq<string>)
    ensures |r| == 23 && r[2] == "#BSUB -J " + jobname && r[21] == p.envLine
  {
    ["#!/bin/bash",
     "# Auto-generated: " + p.timestamp,
     "#BSUB -J " + jobname,
     "#BSUB -P " + p.project,
     "#BSUB -o logs/" + jobname + "_%J.out",
     "#BSUB -e logs/" + jobname + "_%J.err",
     "#BSUB -W " + p.walltime,
     "#BSUB -q " + p.queue,
     "#BSUB -n " + IntToString(p.workers),
     "#BSUB -R \"span[hosts=1]\"",
     "#BSUB -R \"rusage[mem=" + IntToString(p.memPerCore) + "]\"",
     "#BSUB -B",
     "#BSUB -N",
     "#BSUB -u " + p.email,
     "",
     "set -euo pipefail",
     "cd \"$LS_SUBCWD\"",
     "echo \"PWD: $(pwd)\"",
     "mkdir -p logs",
     "",
     "# Conda env",
     p.envLine,
     ""]
  }

  /** `HEADER.format(...)`: the lines, then the `vina_pin` text and a final newline. */
  function HeaderText(p: LsfParams, jobname: string, vinaPin: string): string
  {
    Terminated(HeaderLines(p, jobname)) + vinaPin + "\n"
  }

  // ---------- the conformer-generation body ----------

  /** A value as an f-string shows it: `None` for a missing one. */
  function Shown(v: Option<string>): string
  {
    match v case Some(s) => s case None => "None"
  }

  predicate Given(v: Option<string>)
  {
    v.Some? && v.value != ""
  }

  const Launch: string := "PYBIN=\"$(command -v python3 || command -v python)\"\necho \"Using Python: $PYBIN\"\n\"$PYBIN\" 1_ConformerGeneration.py "

  const NoCsvBody: string := "echo \"No CSV found for mode=1\"; exit 2\n"

  function Tail(poses: int, workers: int): string
  {
    " --num-confs " + IntToString(poses) + " --workers " + IntToString(workers) + "\n"
  }

  /** The mode the generated command runs: `1`, `3`, or the folder mode `2` for anything else. */
  function EffectiveMode(mode: Option<string>): string
  {
    if mode == Some("1") then "1" else if mode == Some("3") then "3" else "2"
  }

  /** The CSV candidates relative to the workspace: the workspace's own CSVs first, then the job's `Ligands/` ones. */
  function CsvCandidates(wsCsvs: seq<string>, ligandCsvs: seq<string>, rootName: string): (r: seq<string>)
    ensures |r| == |wsCsvs| + |ligandCsvs| && r[..|wsCsvs|] == wsCsvs
    ensures forall i :: 0 <= i < |ligandCsvs| ==> r[|wsCsvs| + i] == rootName + "/Ligands/" + ligandCsvs[i]
  {
    wsCsvs + seq(|ligandCsvs|, i requires 0 <= i < |ligandCsvs| => rootName + "/Ligands/" + ligandCsvs[i])
  }

  /** `"$PYBIN" 1_ConformerGeneration.py --mode <m> <args> --num-confs <poses> --workers <workers>` after the prelude. */
  function Command(m: string, args: string, poses: int, workers: int): string
  {
    Launch + "--mode " + m + " " + args + Tail(poses, workers)
  }

  lemma CommandShape(m: string, args: string, poses: int, workers: int)
    ensures StartsWith(Command(m, args, poses, workers), Launch + "--mode " + m + " ")
    ensures StartsWith(Command(m, args, poses, workers), Launch + "--mode " + m + " " + args)
    ensures EndsWith(Command(m, args, poses, workers), Tail(poses, workers))
  {
    var head := Launch + "--mode " + m + " ";
    var c := Command(m, args, poses, workers);
    assert c == head + args + Tail(poses, workers);
    assert c[..|head|] == head;
    assert c[..|head + args|] == head + args;
    assert c[|c| - |Tail(poses, workers)|..] == Tail(poses, workers);
  }

  /** The CSV column flags, each only when given. */
  function ColumnFlags(smilesCol: Option<string>, idCol: Option<string>): string
  {
    (if Given(smilesCol) then " --smiles-col " + smilesCol.value else "")
      + (if Given(idCol) then " --id-col " + idCol.value else "")
  }

  /** The mode-1 input argument. */
  function CsvArg(csv: string): string
  {
    "--csv \"" + csv + "\""
  }

  /** The body for a ligand mode. */
  function ConfgenBody(mode: Option<string>, csvs: seq<string>, filetype: Option<string>, smilesCol: Option<string>,
                       idCol: Option<string>, sdfRel: Option<string>, poses: int, workers: int): (r: string)
    ensures mode == Some("1") && csvs == [] ==> r == NoCsvBody
    ensures !(mode == Some("1") && csvs == []) ==>
      StartsWith(r, Launch + "--mode " + EffectiveMode(mode) + " ") && EndsWith(r, Tail(poses, workers))
  {
    if mode == Some("1") then
      if csvs == [] then NoCsvBody
      else
        CommandShape("1", CsvArg(csvs[0]) + ColumnFlags(smilesCol, idCol), poses, workers);
        Command("1", CsvArg(csvs[0]) + ColumnFlags(smilesCol, idCol), poses, workers)
    else if mode == Some("3") then
      var srel := if Given(sdfRel) then sdfRel.value else "Ligands/example.sdf";
      CommandShape("3", "--sdf \"" + srel + "\"", poses, workers);
      Command("3", "--sdf \"" + srel + "\"", poses, workers)
    else
      CommandShape("2", "--folder Ligands --filetype " + Shown(filetype), poses, workers);
      Command("2", "--folder Ligands --filetype " + Shown(filetype), poses, workers)
  }

  /** Mode 1 runs on the first candidate, so a workspace-level CSV wins over the job's `Ligands/` ones. */
  lemma ModeOneUsesFirstCsv(wsCsvs: seq<string>, ligandCsvs: seq<string>, rootName: string, filetype: Option<string>,
                            smilesCol: Option<string>, idCol: Option<string>, sdfRel: Option<string>, poses: int, workers: int)
    requires wsCsvs != [] || ligandCsvs != []
    ensures var csv := if wsCsvs != [] then wsCsvs[0] else rootName + "/Ligands/" + ligandCsvs[0];
      StartsWith(ConfgenBody(Some("1"), CsvCandidates(wsCsvs, ligandCsvs, rootName), filetype, smilesCol, idCol, sdfRel, poses, workers),
                 Launch + "--mode " + "1" + " " + CsvArg(csv))
  {
    var csvs := CsvCandidates(wsCsvs, ligandCsvs, rootName);
    var csv := if wsCsvs != [] then wsCsvs[0] else rootName + "/Ligands/" + ligandCsvs[0];
    assert csvs[0] == csv;
    var args := CsvArg(csv) + ColumnFlags(smilesCol, idCol);
    CommandShape("1", args, poses, workers);
    PrefixOfPrefix(Command("1", args, poses, workers), Launch + "--mode " + "1" + " ", CsvArg(csv), ColumnFlags(smilesCol, idCol));
  }

  /** A missing mode (as the web front end passes it) gives exactly the folder-mode body. */
  lemma MissingModeIsFolder(csvs: seq<string>, filetype: Option<string>, smilesCol: Option<string>,
                            idCol: Option<string>, sdfRel: Option<string>, poses: int, workers: int)
    ensures ConfgenBody(None, csvs, filetype, smilesCol, idCol, sdfRel, poses, workers)
         == ConfgenBody(Some("2"), csvs, filetype, smilesCol, idCol, sdfRel, poses, workers)
    ensures StartsWith(ConfgenBody(None, csvs, filetype, smilesCol, idCol, sdfRel, poses, workers), Launch + "--mode 2 ")
  {
    MissingModeSame(csvs, filetype, smilesCol, idCol, sdfRel, poses, workers);
    ModeTwoPrefix(Launch);
  }

  lemma MissingModeSame(csvs: seq<string>, filetype: Option<string>, smilesCol: Option<string>,
                        idCol: Option<string>, sdfRel: Option<string>, poses: int, workers: int)
    ensures ConfgenBody(None, csvs, filetype, smilesCol, idCol, sdfRel, poses, workers)
         == ConfgenBody(Some("2"), csvs, filetype, smilesCol, idCol, sdfRel, poses, workers)
    ensures EffectiveMode(None) == "2"
  {
    assert "2" != "1" && "2" != "3";
  }

  lemma ModeTwoPrefix(launch: string)
    ensures launch + "--mode " + "2" + " " == launch + "--mode 2 "
  {
    var a, b, c := "--mode ", "2", " ";
    assert launch + a + b + c == launch + (a + b + c);
  }

  /** Mode 3 without a path falls back to `Ligands/example.sdf`. */
  lemma ModeThreeDefaultSdf(csvs: seq<string>, filetype: Option<string>, smilesCol: Option<string>, idCol: Option<string>, poses: int, workers: int)
    ensures ConfgenBody(Some("3"), csvs, filetype, smilesCol, idCol, None, poses, workers)
         == ConfgenBody(Some("3"), csvs, filetype, smilesCol, idCol, Some("Ligands/example.sdf"), poses, workers)
  {
  }

  // ---------- build_confgen_lsfs ----------

  const Placeholder: string := "...your header......your body..."

  /** A submitter with one `bsub` line. */
  function Submitter(lsfName: string): string
  {
    "#!/bin/bash\nbsub < " + lsfName + "\n"
  }

  /** A job file name never collides with a shell script's. */
  lemma JobFileIsNotSubmitter(jobtag: string, script: string)
    requires EndsWith(script, ".sh")
    ensures "run_" + jobtag + ".lsf" != script
  {
    var lsf := "run_" + jobtag + ".lsf";
    assert lsf[|lsf| - 1] == 'f';
    assert script[|script| - 1] == ".sh"[2];
  }

  /** The written files: the placeholder first, then the real job file, then its submitter. */
  function ConfgenFiles(rootName: string, p: LsfParams, mode: Option<string>, csvs: seq<string>, filetype: Option<string>,
                        smilesCol: Option<string>, idCol: Option<string>, sdfRel: Option<string>, poses: int): (files: map<string, string>)
    ensures var lsf := "run_" + SanitizeName("confgen_" + rootName) + ".lsf";
      && files.Keys == {"run_confgen_job.lsf", lsf, "submit_all_confgen.sh"}
      && files[lsf] == HeaderText(p, SanitizeName("confgen_" + rootName), "") + ConfgenBody(mode, csvs, filetype, smilesCol, idCol, sdfRel, poses, p.workers)
      && files["submit_all_confgen.sh"] == Submitter(lsf)
  {
    var jobname := SanitizeName("confgen_" + rootName);
    var lsf := "run_" + jobname + ".lsf";
    JobFileIsNotSubmitter(jobname, "submit_all_confgen.sh");
    map["run_confgen_job.lsf" := Placeholder]
      [lsf := HeaderText(p, jobname, "") + ConfgenBody(mode, csvs, filetype, smilesCol, idCol, sdfRel, poses, p.workers)]
      ["submit_all_confgen.sh" := Submitter(lsf)]
  }

  /** The submitter, read line by line, submits exactly the generated job file, which is among the files written. */
  lemma SubmitterRunsTheJob(lsfName: string)
    requires '\n' !in lsfName
    ensures Split(Submitter(lsfName), '\n') == ["#!/bin/bash", "bsub < " + lsfName, ""]
  {
    var lines := ["#!/bin/bash", "bsub < " + lsfName];
    assert lines[1..] == ["bsub < " + lsfName] && lines[1..][1..] == [];
    assert Terminated(lines[1..][1..]) == "";
    assert Terminated(lines[1..]) == "bsub < " + lsfName + "\n" + "";
    assert Terminated(lines) == "#!/bin/bash" + "\n" + ("bsub < " + lsfName + "\n" + "");
    assert Submitter(lsfName) == Terminated(lines);
    SplitTerminated(["#!/bin/bash", "bsub < " + lsfName]);
  }

  lemma ConfgenSubmitterRunsTheJob(rootName: string, p: LsfParams, mode: Option<string>, csvs: seq<string>, filetype: Option<string>,
                                   smilesCol: Option<string>, idCol: Option<string>, sdfRel: Option<string>, poses: int)
    ensures var files := ConfgenFiles(rootName, p, mode, csvs, filetype, smilesCol, idCol, sdfRel, poses);
      var lsf := "run_" + SanitizeName("confgen_" + rootName) + ".lsf";
      && lsf in files
      && Split(files["submit_all_confgen.sh"], '\n') == ["#!/bin/bash", "bsub < " + lsf, ""]
  {
    var lsf := "run_" + SanitizeName("confgen_" + rootName) + ".lsf";
    assert '\n' !in lsf;
    SubmitterRunsTheJob(lsf);
  }

  /** Every header opens with the shell line. */
  lemma HeaderOpens(p: LsfParams, jobname: string, vinaPin: string)
    ensures HeaderText(p, jobname, vinaPin)[0] == '#'
  {
    var lines := HeaderLines(p, jobname);
    assert Terminated(lines) == lines[0] + "\n" + Terminated(lines[1..]);
    assert lines[0][0] == '#';
  }

  lemma JobFolderName()
    ensures "run_" + SanitizeName("confgen_" + "job") + ".lsf" == "run_confgen_job.lsf"
  {
    JobFolderTag();
    JobFolderFile();
  }

  lemma JobFolderTag()
    ensures SanitizeName("confgen_" + "job") == "confgen_job"
  {
    JobFolderSafe();
    CollapseSafe("confgen_" + "job");
    JobFolderSpelled();
  }

  lemma JobFolderSafe()
    ensures AllSafe("confgen_" + "job")
  {
    assert AllSafe("confgen_");
    assert AllSafe("job");
    SafeAppend("confgen_", "job");
  }

  lemma SafeAppend(a: string, b: string)
    requires AllSafe(a) && AllSafe(b)
    ensures AllSafe(a + b)
  {
    assert forall i :: |a| <= i < |a + b| ==> (a + b)[i] == b[i - |a|];
  }

  lemma JobFolderSpelled()
    ensures "confgen_" + "job" == "confgen_job"
  {
  }

  lemma JobFolderFile()
    ensures "run_" + "confgen_job" + ".lsf" == "run_confgen_job.lsf"
  {
    var name := "run_confgen_job.lsf";
    assert name[..4] == "run_" && name[4..15] == "confgen_job" && name[15..] == ".lsf";
    ThreeSlices(name, 4, 15);
  }

  lemma ThreeSlices(s: string, i: nat, j: nat)
    requires i <= j <= |s|
    ensures s == s[..i] + s[i..j] + s[j..]
  {
  }

  /** A job folder named `job` gives the placeholder's own file name, so the real file replaces it. */
  lemma JobFolderReplacesPlaceholder(p: LsfParams, mode: Option<string>, csvs: seq<string>, filetype: Option<string>,
                                     smilesCol: Option<string>, idCol: Option<string>, sdfRel: Option<string>, poses: int)
    ensures ConfgenFiles("job", p, mode, csvs, filetype, smilesCol, idCol, sdfRel, poses)["run_confgen_job.lsf"] != Placeholder
  {
    JobFolderName();
    var text := HeaderText(p, "confgen_job", "") + ConfgenBody(mode, csvs, filetype, smilesCol, idCol, sdfRel, poses, p.workers);
    HeaderOpens(p, "confgen_job", "");
    assert text[0] == '#';
    assert Placeholder[0] == '.';
  }

  // ---------- build_vina_lsfs ----------

  /** The glob `vina_centers*.csv`. */
  predicate IsCentersCsv(name: string)
  {
    |name| >= 16 && StartsWith(name, "vina_centers") && EndsWith(name, ".csv")
  }

  /** The first matching entry in glob order, else `vina_centers.csv`. */
  function CentersCsv(entries: seq<string>): (r: string)
    ensures IsCentersCsv(r)
    ensures (exists i :: 0 <= i < |entries| && IsCentersCsv(entries[i])) ==>
      exists i :: 0 <= i < |entries| && entries[i] == r && forall j :: 0 <= j < i ==> !IsCentersCsv(entries[j])
    ensures (forall i :: 0 <= i < |entries| ==> !IsCentersCsv(entries[i])) ==> r == "vina_centers.csv"
  {
    if entries == [] then "vina_centers.csv"
    else if IsCentersCsv(entries[0]) then entries[0]
    else
      var r := CentersCsv(entries[1..]);
      assert forall i :: 1 <= i < |entries| ==> entries[i] == entries[1..][i - 1];
      r
  }

  /** `export VINA_EXE="..."` and a newline when a Vina path is given, nothing otherwise. */
  function VinaPin(vinaPath: Option<string>): string
  {
    if Given(vinaPath) then "export VINA_EXE=\"" + vinaPath.value + "\"\n" else ""
  }

  /** The header ends with the export line exactly when a Vina path is given. */
  lemma VinaPinInHeader(p: LsfParams, jobname: string, vinaPath: Option<string>)
    ensures Given(vinaPath) ==>
      HeaderText(p, jobname, VinaPin(vinaPath)) == Terminated(HeaderLines(p, jobname) + ["export VINA_EXE=\"" + vinaPath.value + "\"", ""])
    ensures !Given(vinaPath) ==>
      HeaderText(p, jobname, VinaPin(vinaPath)) == Terminated(HeaderLines(p, jobname) + [""])
  {
    var lines := HeaderLines(p, jobname);
    if Given(vinaPath) {
      var e := "export VINA_EXE=\"" + vinaPath.value + "\"";
      TerminatedAppend(lines, [e, ""]);
      var tail := [e, ""];
      assert tail[1..] == [""] && tail[1..][1..] == [];
      assert Terminated(tail[1..][1..]) == "";
      assert Terminated(tail[1..]) == "" + "\n" + "";
      assert Terminated(tail) == e + "\n" + ("" + "\n" + "");
      assert VinaPin(vinaPath) + "\n" == Terminated(tail);
    } else {
      TerminatedAppend(lines, [""]);
    }
  }

  lemma {:induction false} TerminatedAppend(a: seq<string>, b: seq<string>)
    ensures Terminated(a + b) == Terminated(a) + Terminated(b)
  {
    if a != [] {
      assert (a + b)[1..] == a[1..] + b;
      TerminatedAppend(a[1..], b);
    } else {
      assert a + b == b;
    }
  }

  /** The docking command's body. */
  function VinaBody(receptors: string, ligands: string, centersCsv: string, poses: int): string
  {
    "python 3_Complete_batch_docking.py \\\n  --receptors \"" + receptors + "\" \\\n  --ligands   \"" + ligands
      + "\" \\\n  --centers_csv \"" + centersCsv + "\" \\\n  --poses " + IntToString(poses) + "\n"
  }

  /** `(jobroot / "Receptors").name` is `Receptors` wherever the job root is. */
  lemma ChildName(jobroot: string, name: string)
    requires name != "" && name != "." && '/' !in name
    ensures PathName(JoinPath(jobroot, name)) == name
  {
    if jobroot == [] {
      assert JoinPath(jobroot, name) == name;
      PathNameOfName(name);
    } else if jobroot[|jobroot| - 1] == '/' {
      assert jobroot + name == jobroot[..|jobroot| - 1] + "/" + name;
      PathNameOfChild(jobroot[..|jobroot| - 1], name);
    } else {
      PathNameOfChild(jobroot, name);
    }
  }

  lemma VinaDirs(jobroot: string)
    ensures PathName(JoinPath(jobroot, "Receptors")) == "Receptors"
    ensures PathName(JoinPath(jobroot, "Ligands")) == "Ligands"
  {
    ChildName(jobroot, "Receptors");
    ChildName(jobroot, "Ligands");
  }

  /** The docking job file, which always names the literal `Receptors` and `Ligands` directories, and its submitter. */
  function VinaFiles(jobroot: string, p: LsfParams, entries: seq<string>, poses: int, vinaPath: Option<string>): (files: map<string, string>)
    ensures var jobtag := SanitizeName("vina_" + PathName(jobroot));
      var lsf := "run_" + jobtag + ".lsf";
      && files.Keys == {lsf, "submit_all_vina.sh"}
      && files[lsf] == HeaderText(p, jobtag, VinaPin(vinaPath)) + VinaBody("Receptors", "Ligands", CentersCsv(entries), poses)
      && files["submit_all_vina.sh"] == Submitter(lsf)
  {
    var recDir := PathName(JoinPath(jobroot, "Receptors"));
    var ligDir := PathName(JoinPath(jobroot, "Ligands"));
    VinaDirs(jobroot);
    var jobtag := SanitizeName("vina_" + PathName(jobroot));
    var lsf := "run_" + jobtag + ".lsf";
    JobFileIsNotSubmitter(jobtag, "submit_all_vina.sh");
    OneJob(lsf, "submit_all_vina.sh", HeaderText(p, jobtag, VinaPin(vinaPath)) + VinaBody(recDir, ligDir, CentersCsv(entries), poses))
  }

  /** A job file and the submitter that runs it. */
  function OneJob(lsf: string, script: string, text: string): (files: map<string, string>)
    requires lsf != script
    ensures files.Keys == {lsf, script} && files[lsf] == text && files[script] == Submitter(lsf)
  {
    map[lsf := text][script := Submitter(lsf)]
  }

  /** The docking submitter submits exactly the docking job file. */
  lemma VinaSubmitterRunsTheJob(jobroot: string, p: LsfParams, entries: seq<string>, poses: int, vinaPath: Option<string>)
    ensures var files := VinaFiles(jobroot, p, entries, poses, vinaPath);
      var lsf := "run_" + SanitizeName("vina_" + PathName(jobroot)) + ".lsf";
      && lsf in files
      && Split(files["submit_all_vina.sh"], '\n') == ["#!/bin/bash", "bsub < " + lsf, ""]
  {
    var lsf := "run_" + SanitizeName("vina_" + PathName(jobroot)) + ".lsf";
    assert '\n' !in lsf;
    SubmitterRunsTheJob(lsf);
  }
}
