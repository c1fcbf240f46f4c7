/**
 * 1B_confgen_batch.py: turns a list of targets (CSV files, ligand folders or
 * SDF files) into one LSF job per valid target, each running
 * 1_ConformerGeneration.py, plus a master submitter script. Its 1-based
 * `parse_index_list` is `IndexList.ParseIndexList` with base 1. The disk is a
 * set of regular files and a map from each directory to the names of its
 * entries; folder discovery for `--auto` is an oracle.
 */
module ConfgenBatch {
  import opened Wrappers
  import opened Text
  import opened Paths
  import opened Sanitize

  // ---------- names ----------

  /** `sanitize_name(p)`: unsafe runs of the last path component collapsed to `_`. */
  function SanitizeName(p: string): (r: string)
    ensures AllSafe(r)
  {
    CollapseRuns(PathName(p))
  }

  /** Only the last component counts: the directories above it are ignored. */
  lemma SanitizeNameOfChild(dir: string, name: string)
    requires name != "" && name != "." && '/' !in name
    ensures SanitizeName(dir + "/" + name) == SanitizeName(name) == CollapseRuns(name)
  {
    PathNameOfChild(dir, name);
    PathNameOfName(name);
  }

  /** A sanitised name is its own sanitised name. */
  lemma SanitizeNameIdempotent(p: string)
    ensures SanitizeName(SanitizeName(p)) == SanitizeName(p)
  {
    var n := PathName(p);
    var r := CollapseRuns(n);
    CollapseOnlyDot(n);
    if r != "" {
      assert '/' !in r by {
        assert !SafeChar('/');
      }
      PathNameOfName(r);
    }
    CollapseIdempotent(n);
  }

  lemma CollapseNonEmpty(s: string)
    requires s != []
    ensures CollapseRuns(s) != []
  {
  }

  /** Only "." collapses to ".". */
  lemma CollapseOnlyDot(n: string)
    ensures CollapseRuns(n) == "." ==> n == "."
  {
    if n != [] && SafeChar(n[0]) {
      if n[1..] != [] {
        CollapseNonEmpty(n[1..]);
      } else {
        assert n == [n[0]];
      }
    }
  }

  // ---------- the run command ----------

  const Python := "\"$PYBIN\" 1_ConformerGeneration.py"

  /** `--num-confs {poses} --workers {workers}` and the line end every command shares. */
  function Tail(poses: int, workers: int): string
  {
    " --num-confs " + IntToString(poses) + " --workers " + IntToString(workers) + "\n"
  }

  /** The flags naming CSV columns: only those given as nonempty strings. */
  function CsvFlags(smilesCol: Option<string>, idCol: Option<string>): (r: string)
    ensures r == "" <==> (smilesCol.None? || smilesCol.value == "") && (idCol.None? || idCol.value == "")
  {
    (if smilesCol.Some? && smilesCol.value != "" then " --smiles-col " + smilesCol.value else "")
    + (if idCol.Some? && idCol.value != "" then " --id-col " + idCol.value else "")
  }

  /** The mode a command runs in: anything but "1" and "2" runs as mode 3. */
  function EffectiveMode(mode: string): string
  {
    if mode == "1" || mode == "2" then mode else "3"
  }

  /** The file type a folder command passes: `filetype or "sdf"`. */
  function FolderType(filetype: Option<string>): string
  {
    if filetype.Some? && filetype.value != "" then filetype.value else "sdf"
  }

  /** The flag that names the target, up to its opening quote. */
  function TargetFlag(mode: string): string
  {
    if mode == "1" then " --csv \"" else if mode == "2" then " --folder \"" else " --sdf \""
  }

  /** The command up to the opening quote of its target: `--csv "`, `--folder "` or `--sdf "`. */
  function Opening(mode: string): string
  {
    Python + " --mode " + EffectiveMode(mode) + TargetFlag(mode)
  }

  /** What follows the quoted target: the column flags, the file type, or nothing. */
  function Options(mode: string, filetype: Option<string>, smilesCol: Option<string>, idCol: Option<string>): string
  {
    if mode == "1" then CsvFlags(smilesCol, idCol) else if mode == "2" then " --filetype " + FolderType(filetype) else ""
  }

  /** `build_run_cmd(mode, target, poses, workers, filetype, csv_smiles_col, csv_id_col)` */
  function RunCmd(mode: string, target: string, poses: int, workers: int,
                  filetype: Option<string>, smilesCol: Option<string>, idCol: Option<string>): (cmd: string)
    ensures StartsWith(cmd, Python + " --mode " + EffectiveMode(mode))
    ensures StartsWith(cmd, Opening(mode) + target + "\"" + Options(mode, filetype, smilesCol, idCol))
    ensures EndsWith(cmd, Tail(poses, workers))
  {
    var quoted := Opening(mode) + target + "\"" + Options(mode, filetype, smilesCol, idCol);
    OpeningHead(mode, target + "\"" + Options(mode, filetype, smilesCol, idCol) + Tail(poses, workers));
    StartsWithAppend(quoted, Tail(poses, workers));
    EndsWithAppend(quoted, Tail(poses, workers));
    quoted + Tail(poses, workers)
  }

  /** The opening, and so the whole command, begins with the mode flag. */
  lemma OpeningHead(mode: string, rest: string)
    ensures StartsWith(Opening(mode) + rest, Python + " --mode " + EffectiveMode(mode))
  {
    var head := Python + " --mode " + EffectiveMode(mode);
    assert Opening(mode) + rest == head + (TargetFlag(mode) + rest);
    StartsWithAppend(head, TargetFlag(mode) + rest);
  }

  /** Mode 1 passes its target as `--csv "<t>"`, then the column flags. */
  lemma CsvCommandNamesTarget(target: string, poses: int, workers: int,
                              filetype: Option<string>, smilesCol: Option<string>, idCol: Option<string>)
    ensures StartsWith(RunCmd("1", target, poses, workers, filetype, smilesCol, idCol),
                       Python + " --mode " + "1" + " --csv \"" + target + "\"" + CsvFlags(smilesCol, idCol))
  {
  }

  /** Mode 2 passes its target as `--folder "<t>"`, then `--filetype` and the type. */
  lemma FolderCommandNamesTarget(target: string, poses: int, workers: int,
                                 filetype: Option<string>, smilesCol: Option<string>, idCol: Option<string>)
    ensures StartsWith(RunCmd("2", target, poses, workers, filetype, smilesCol, idCol),
                       Python + " --mode " + "2" + " --folder \"" + target + "\"" + (" --filetype " + FolderType(filetype)))
  {
  }

  /** Any other mode passes its target as `--sdf "<t>"` in mode 3. */
  lemma SdfCommandNamesTarget(mode: string, target: string, poses: int, workers: int,
                              filetype: Option<string>, smilesCol: Option<string>, idCol: Option<string>)
    requires mode != "1" && mode != "2"
    ensures StartsWith(RunCmd(mode, target, poses, workers, filetype, smilesCol, idCol),
                       Python + " --mode " + "3" + " --sdf \"" + target + "\"")
  {
    var q := Opening(mode) + target + "\"";
    assert q + Options(mode, filetype, smilesCol, idCol) == q;
  }

  /**
   * The command names its target: for targets without a double quote, two
   * commands in the same mode are equal only when their targets are.
   */
  lemma RunCmdNamesTarget(mode: string, t1: string, t2: string, poses: int, workers: int,
                          filetype: Option<string>, smilesCol: Option<string>, idCol: Option<string>)
    requires '"' !in t1 && '"' !in t2
    requires RunCmd(mode, t1, poses, workers, filetype, smilesCol, idCol) == RunCmd(mode, t2, poses, workers, filetype, smilesCol, idCol)
    ensures t1 == t2
  {
    var cmd := RunCmd(mode, t1, poses, workers, filetype, smilesCol, idCol);
    var o, rest := Opening(mode), Options(mode, filetype, smilesCol, idCol);
    QuotedAfter(cmd, o, t1, rest);
    QuotedAfter(cmd, o, t2, rest);
    QuoteEndsText(cmd[|o|..], t1);
    QuoteEndsText(cmd[|o|..], t2);
  }

  /** In a command starting `o + t + "\"" + rest`, the text after `o` starts `t + "\""`. */
  lemma QuotedAfter(cmd: string, o: string, t: string, rest: string)
    requires StartsWith(cmd, o + t + "\"" + rest)
    ensures |o| <= |cmd| && StartsWith(cmd[|o|..], t + "\"")
  {
    var p := o + t + "\"" + rest;
    assert cmd[..|p|] == p;
    forall k | 0 <= k < |t| + 1 ensures cmd[|o|..][k] == (t + "\"")[k] {
      assert cmd[|o| + k] == cmd[..|p|][|o| + k] == p[|o| + k];
    }
    assert cmd[|o|..][..|t| + 1] == t + "\"";
  }

  /** The index of the first `c` in `s`, or `|s|` when there is none. */
  function FirstIndex(s: string, c: char): (i: nat)
    ensures i <= |s|
  {
    if s == [] || s[0] == c then 0 else 1 + FirstIndex(s[1..], c)
  }

  /** A quote-free text followed by `"` is what comes before the first quote. */
  lemma {:induction false} QuoteEndsText(s: string, t: string)
    requires '"' !in t && StartsWith(s, t + "\"")
    ensures FirstIndex(s, '"') == |t| && s[..|t|] == t
  {
    if t == [] {
      assert s[0] == (t + "\"")[0] == '"';
    } else {
      assert s[0] == t[0] && t[0] != '"';
      assert StartsWith(s[1..], t[1..] + "\"") by {
        assert (t + "\"")[1..] == t[1..] + "\"";
        assert s[1..][..|t[1..] + "\""|] == s[..|t + "\""|][1..];
      }
      assert '"' !in t[1..] by {
        forall k | 0 <= k < |t[1..]| ensures t[1..][k] != '"' {
          assert t[1..][k] == t[k + 1];
        }
      }
      QuoteEndsText(s[1..], t[1..]);
      assert s[..|t|] == t by {
        assert s[..|t|] == s[..|t + "\""|][..|t|];
      }
    }
  }

  /** Mode 2 without a filetype converts `sdf` folders. */
  lemma FolderDefaultsToSdf(target: string, poses: int, workers: int, smilesCol: Option<string>, idCol: Option<string>)
    ensures RunCmd("2", target, poses, workers, None, smilesCol, idCol)
         == RunCmd("2", target, poses, workers, Some("sdf"), smilesCol, idCol)
         == RunCmd("2", target, poses, workers, Some(""), smilesCol, idCol)
  {
  }

  /** Any mode other than "1" or "2" builds the mode 3 command. */
  lemma OtherModesAreSdf(mode: string, target: string, poses: int, workers: int,
                         filetype: Option<string>, smilesCol: Option<string>, idCol: Option<string>)
    requires mode != "1" && mode != "2"
    ensures RunCmd(mode, target, poses, workers, filetype, smilesCol, idCol)
         == RunCmd("3", target, poses, workers, None, None, None)
  {
  }

  /** The column names matter only in mode 1, and there an empty name adds no flag. */
  lemma ColumnsOnlyForCsv(mode: string, target: string, poses: int, workers: int,
                          filetype: Option<string>, smilesCol: Option<string>, idCol: Option<string>)
    ensures mode != "1" ==>
      RunCmd(mode, target, poses, workers, filetype, smilesCol, idCol) == RunCmd(mode, target, poses, workers, filetype, None, None)
    ensures RunCmd(mode, target, poses, workers, filetype, Some(""), Some(""))
         == RunCmd(mode, target, poses, workers, filetype, None, None)
  {
  }

  /** Naming a column makes the mode 1 command strictly longer than leaving it out. */
  lemma ColumnFlagsLengthen(target: string, poses: int, workers: int, filetype: Option<string>,
                            smilesCol: Option<string>, idCol: Option<string>)
    requires CsvFlags(smilesCol, idCol) != ""
    ensures |RunCmd("1", target, poses, workers, filetype, smilesCol, idCol)|
          > |RunCmd("1", target, poses, workers, filetype, None, None)|
  {
  }

  // ---------- targets ----------

  /** The filter `if x.strip()`, keeping the stripped text. */
  function StrippedPiece(x: string): Option<string>
  {
    if Strip(x) == "" then None else Some(Strip(x))
  }

  /** `[x.strip() for x in s.split(",") if x.strip()]` */
  function CliTargets(s: string): seq<string>
  {
    FilterMap(StrippedPiece, Split(s, ','))
  }

  /** Paths with no comma and no outer blanks, joined by commas, are read back as given. */
  lemma CliTargetsOfList(paths: seq<string>)
    requires paths != []
    requires forall i :: 0 <= i < |paths| ==>
      paths[i] != "" && ',' !in paths[i] && !IsSpace(paths[i][0]) && !IsSpace(paths[i][|paths[i]| - 1])
    ensures CliTargets(Join(paths, ",")) == paths
  {
    SplitJoin(paths, ',');
    StrippedKept(paths);
  }

  lemma StrippedKept(paths: seq<string>)
    requires forall i :: 0 <= i < |paths| ==> paths[i] != "" && !IsSpace(paths[i][0]) && !IsSpace(paths[i][|paths[i]| - 1])
    ensures FilterMap(StrippedPiece, paths) == paths
  {
    forall i | 0 <= i < |paths| ensures StrippedPiece(paths[i]) == Some(paths[i]) {
      StripNoop(paths[i]);
    }
    FilterMapAll(StrippedPiece, paths);
  }

  /** The non-interactive arguments main reads. */
  datatype Args = Args(mode: string, targets: string, filetype: Option<string>, auto: bool,
                       csvSmilesCol: Option<string>, csvIdCol: Option<string>, poses: int, workers: int)

  /**
   * The target list of a non-interactive run: `--auto` in mode 2 needs a
   * filetype (exit 2) and discovers folders; otherwise `--targets` is split.
   */
  function ChooseTargets(args: Args, discover: string -> seq<string>): (r: Result<seq<string>, int>)
    ensures r == Err(2) <==> args.mode == "2" && args.auto && (args.filetype.None? || args.filetype.value == "")
    ensures r.Ok? && !(args.mode == "2" && args.auto) ==> r.value == CliTargets(args.targets)
    ensures r.Ok? && args.mode == "2" && args.auto ==> args.filetype.Some? && r.value == discover(args.filetype.value)
    ensures r.Err? ==> r == Err(2)
  {
    if args.mode == "2" && args.auto then
      if args.filetype.None? || args.filetype.value == "" then Err(2) else Ok(discover(args.filetype.value))
    else Ok(CliTargets(args.targets))
  }

  // ---------- validation ----------

  /** Regular files, and each directory's entry names. */
  datatype Disk = Disk(files: set<string>, dirs: map<string, seq<string>>)

  /** `any(p.glob("*" + ext))`: some entry of the directory ends in `ext`. */
  predicate HasEntry(entries: seq<string>, ext: string)
  {
    exists i :: 0 <= i < |entries| && EndsWith(entries[i], ext)
  }

  /** The checks of main's validation loop for one target. */
  predicate ValidTarget(mode: string, filetype: Option<string>, disk: Disk, t: string)
  {
    if mode == "1" then t in disk.files && Lower(Suffix(PathName(t))) == ".csv"
    else if mode == "2" then
      && t in disk.dirs
      && (filetype == Some("sdf") ==> HasEntry(disk.dirs[t], ".sdf"))
      && (filetype == Some("smiles") ==> HasEntry(disk.dirs[t], ".smiles"))
    else t in disk.files && Lower(Suffix(PathName(t))) == ".sdf"
  }

  /** A target kept as itself when it passes its mode's check. */
  function Keep(mode: string, filetype: Option<string>, disk: Disk): string -> Option<string>
  {
    t => if ValidTarget(mode, filetype, disk, t) then Some(t) else None
  }

  /** The targets that survive validation, in their order. */
  function ValidTargets(mode: string, filetype: Option<string>, disk: Disk, targets: seq<string>): seq<string>
  {
    FilterMap(Keep(mode, filetype, disk), targets)
  }

  /** A target survives exactly when it was listed and passes its mode's check. */
  lemma ValidTargetsExactly(mode: string, filetype: Option<string>, disk: Disk, targets: seq<string>, t: string)
    ensures t in ValidTargets(mode, filetype, disk, targets) <==> t in targets && ValidTarget(mode, filetype, disk, t)
  {
    FilterMapFrom(Keep(mode, filetype, disk), targets, t);
  }

  /** The validation loop: skipped targets are dropped, and nothing valid exits with 2. */
  method Validate(mode: string, filetype: Option<string>, disk: Disk, targets: seq<string>)
    returns (r: Result<seq<string>, int>)
    ensures r == Err(2) <==> ValidTargets(mode, filetype, disk, targets) == []
    ensures r.Ok? ==> r.value == ValidTargets(mode, filetype, disk, targets)
    ensures r.Err? ==> r == Err(2)
  {
    var valid: seq<string> := [];
    var i := 0;
    while i < |targets|
      invariant i <= |targets| && valid == ValidTargets(mode, filetype, disk, targets[..i])
    {
      FilterMapSnoc(Keep(mode, filetype, disk), targets, i);
      if ValidTarget(mode, filetype, disk, targets[i]) {
        valid := valid + [targets[i]];
      }
      i := i + 1;
    }
    assert targets[..i] == targets;
    if valid == [] {
      return Err(2);
    }
    return Ok(valid);
  }

  // ---------- jobs and the submitter ----------

  /** `run_confgen_{name}.lsf` */
  function LsfName(target: string): string
  {
    "run_confgen_" + SanitizeName(target) + ".lsf"
  }

  /** One job: the LSF file name and the command it runs. */
  datatype Job = Job(lsf: string, cmd: string)

  /**
   * The jobs main writes, as written: the column names come from the
   * command-line arguments even when the interactive prompts supplied them.
   */
  function JobsAsWritten(mode: string, valid: seq<string>, filetype: Option<string>,
                         smilesCol: Option<string>, idCol: Option<string>, args: Args): (r: seq<Job>)
    ensures |r| == |valid|
    ensures forall i :: 0 <= i < |valid| ==>
      r[i] == Job(LsfName(valid[i]), RunCmd(mode, valid[i], args.poses, args.workers, filetype, args.csvSmilesCol, args.csvIdCol))
  {
    seq(|valid|, i requires 0 <= i < |valid| =>
      Job(LsfName(valid[i]), RunCmd(mode, valid[i], args.poses, args.workers, filetype, args.csvSmilesCol, args.csvIdCol)))
  }

  /** The jobs with the column names the run actually chose. */
  function Jobs(mode: string, valid: seq<string>, filetype: Option<string>,
                smilesCol: Option<string>, idCol: Option<string>, args: Args): (r: seq<Job>)
    ensures |r| == |valid|
    ensures forall i :: 0 <= i < |valid| ==>
      r[i] == Job(LsfName(valid[i]), RunCmd(mode, valid[i], args.poses, args.workers, filetype, smilesCol, idCol))
  {
    seq(|valid|, i requires 0 <= i < |valid| =>
      Job(LsfName(valid[i]), RunCmd(mode, valid[i], args.poses, args.workers, filetype, smilesCol, idCol)))
  }

  /**
   * An interactive CSV run whose prompts named a column, started without the
   * `--csv-*` arguments: the written command lacks the column flags that the
   * chosen names call for.
   */
  lemma InteractiveColumnsLost(valid: seq<string>, filetype: Option<string>,
                               smilesCol: Option<string>, idCol: Option<string>, args: Args)
    requires valid != [] && args.csvSmilesCol.None? && args.csvIdCol.None?
    requires CsvFlags(smilesCol, idCol) != ""
    ensures JobsAsWritten("1", valid, filetype, smilesCol, idCol, args)[0]
         != Jobs("1", valid, filetype, smilesCol, idCol, args)[0]
  {
    ColumnFlagsLengthen(valid[0], args.poses, args.workers, filetype, smilesCol, idCol);
  }

  /** With the arguments as the source of the names, both agree: only the interactive path differs. */
  lemma JobsAgreeOnArguments(mode: string, valid: seq<string>, filetype: Option<string>, args: Args)
    ensures JobsAsWritten(mode, valid, filetype, args.csvSmilesCol, args.csvIdCol, args)
         == Jobs(mode, valid, filetype, args.csvSmilesCol, args.csvIdCol, args)
  {
  }

  /** A CSV command built from chosen columns ends with exactly the flags for them. */
  lemma CsvCommandCarriesColumns(target: string, poses: int, workers: int, filetype: Option<string>, smiles: string, id: string)
    requires smiles != "" && id != ""
    ensures EndsWith(RunCmd("1", target, poses, workers, filetype, Some(smiles), Some(id)),
                     " --smiles-col " + smiles + " --id-col " + id + Tail(poses, workers))
  {
    var head := Python + " --mode " + EffectiveMode("1");
    var csv := " --csv \"" + target + "\"";
    var flags := CsvFlags(Some(smiles), Some(id));
    assert flags == " --smiles-col " + smiles + " --id-col " + id;
    assert RunCmd("1", target, poses, workers, filetype, Some(smiles), Some(id))
        == head + (csv + flags) + Tail(poses, workers);
    Regroup(head, csv, flags, Tail(poses, workers));
    EndsWithAppend(head + csv, flags + Tail(poses, workers));
  }

  /** The three lines of `SUBMITTER_HDR` for `n` jobs. */
  function HeaderLines(n: nat): seq<string>
  {
    ["#!/bin/bash", "set -euo pipefail", "echo \"Submitting " + NatToString(n) + " jobs...\""]
  }

  /** `SUBMITTER_HDR.format(N=n)`: the header lines, each ending in a newline. */
  function SubmitterHeader(n: nat): string
  {
    Join(HeaderLines(n), "\n") + "\n"
  }

  /** `bsub < "<name>"` for each job file, in order. */
  function BsubLines(names: seq<string>): (r: seq<string>)
    ensures |r| == |names| && forall i :: 0 <= i < |names| ==> r[i] == "bsub < \"" + names[i] + "\""
  {
    seq(|names|, i requires 0 <= i < |names| => "bsub < \"" + names[i] + "\"")
  }

  /** `write_submitter(paths)`: the header and one line per job, joined, newline-terminated. */
  method WriteSubmitter(names: seq<string>) returns (text: string)
    ensures text == Join([SubmitterHeader(|names|)] + BsubLines(names), "\n") + "\n"
  {
    var lines := [SubmitterHeader(|names|)];
    var i := 0;
    while i < |names|
      invariant i <= |names| && lines == [SubmitterHeader(|names|)] + BsubLines(names[..i])
    {
      assert BsubLines(names[..i + 1]) == BsubLines(names[..i]) + ["bsub < \"" + names[i] + "\""];
      lines := lines + ["bsub < \"" + names[i] + "\""];
      i := i + 1;
    }
    assert names[..i] == names;
    text := Join(lines, "\n") + "\n";
  }

  /**
   * Read back line by line, the submitter is the three header lines, a
   * blank line, one `bsub` line per job in order, and the empty remainder
   * after the final newline.
   */
  lemma SubmitterReadsBack(names: seq<string>)
    requires forall i :: 0 <= i < |names| ==> '\n' !in names[i]
    ensures Split(Join([SubmitterHeader(|names|)] + BsubLines(names), "\n") + "\n", '\n')
         == HeaderLines(|names|) + [""] + BsubLines(names) + [""]
  {
    var h := HeaderLines(|names|);
    var b := BsubLines(names);
    HeaderHasNoNewline(|names|);
    BsubHasNoNewline(names);
    var rest := LinesAfter(b);
    SubmitterShape(h, b);
    SplitConcat("", rest, '\n');
    assert Split("", '\n') == [""];
    SplitAfterLines(h, "" + "\n" + rest, '\n');
  }

  lemma HeaderHasNoNewline(n: nat)
    ensures forall i :: 0 <= i < |HeaderLines(n)| ==> '\n' !in HeaderLines(n)[i]
  {
    assert '\n' !in NatToString(n) by {
      assert forall k :: 0 <= k < |NatToString(n)| ==> IsDigit(NatToString(n)[k]);
    }
  }

  lemma BsubHasNoNewline(names: seq<string>)
    requires forall i :: 0 <= i < |names| ==> '\n' !in names[i]
    ensures forall i :: 0 <= i < |BsubLines(names)| ==> '\n' !in BsubLines(names)[i]
  {
    forall i | 0 <= i < |names| ensures '\n' !in BsubLines(names)[i] {
      assert BsubLines(names)[i] == "bsub < \"" + names[i] + "\"";
    }
  }

  /** The text after the blank line: each job line followed by a newline. */
  function LinesAfter(b: seq<string>): string
  {
    if b == [] then "" else Join(b, "\n") + "\n"
  }

  /** The submitter text is the header, a blank line, and the job lines. */
  lemma SubmitterShape(h: seq<string>, b: seq<string>)
    requires forall i :: 0 <= i < |b| ==> '\n' !in b[i]
    ensures Join([Join(h, "\n") + "\n"] + b, "\n") + "\n" == Join(h, "\n") + "\n" + ("" + "\n" + LinesAfter(b))
    ensures Split(LinesAfter(b), '\n') == b + [""]
  {
    var j := Join(h, "\n");
    if b != [] {
      JoinAppend([j + "\n"], b, "\n");
      BlankLineBetween(j, Join(b, "\n"), "\n");
      SplitAfterLines(b, "", '\n');
      assert Join(b, "\n") + "\n" + "" == LinesAfter(b);
    } else {
      BlankLineBetween(j, "", "\n");
    }
  }

  lemma BlankLineBetween(j: string, jb: string, nl: string)
    ensures (j + nl) + nl + jb + nl == j + nl + ("" + nl + (jb + nl))
    ensures (j + nl) + nl == j + nl + ("" + nl + "")
  {
  }
}
