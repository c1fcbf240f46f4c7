/**
 * 3B_ServerDocks.py, the builder of Vina LSF jobs: orders the directories of
 * the working directory so likely ligand or receptor folders come first,
 * turns index answers into selections, and writes one job per
 * (receptor directory, ligand directory) pair plus a master submitter. Only
 * the second, effective definitions in the file are modelled. Its 1-based
 * `parse_index_list` is `IndexList.ParsedIndices` with base 1. The prompts
 * are left out: their answers are parameters. A written job is recorded by
 * the values its template is filled with.
 */
module ServerDocks {
  import opened Wrappers
  import opened Text
  import opened Sorting
  import opened IndexList
  import opened Sanitize
  import BatchDocking

  // ---------- directory priority ----------

  /** A directory of the working directory: its name and the names of its entries. */
  datatype Dir = Dir(name: string, entries: seq<string>)

  /** `count_pdbqt(p) > 0`: some entry matches `*.pdbqt`. */
  predicate HasPdbqt(d: Dir)
  {
    exists i :: 0 <= i < |d.entries| && EndsWith(d.entries[i], ".pdbqt")
  }

  /** The first element of the sort key: 0 prefix and `.pdbqt` files, 1 prefix only, 2 files only, 3 neither. */
  function Rank(prefix: string, d: Dir): (r: nat)
    ensures r <= 3
    ensures r == 0 <==> StartsWith(d.name, prefix) && HasPdbqt(d)
    ensures r == 1 <==> StartsWith(d.name, prefix) && !HasPdbqt(d)
    ensures r == 2 <==> !StartsWith(d.name, prefix) && HasPdbqt(d)
  {
    var pre := StartsWith(d.name, prefix);
    var has := HasPdbqt(d);
    if pre && has then 0 else if pre then 1 else if has then 2 else 3
  }

  /** Comparing the key `(rank, p.name.lower())`. */
  predicate DirLe(prefix: string, a: Dir, b: Dir)
  {
    Rank(prefix, a) < Rank(prefix, b) || (Rank(prefix, a) == Rank(prefix, b) && LexLe(Lower(a.name), Lower(b.name)))
  }

  predicate LigandLe(a: Dir, b: Dir) { DirLe("Ligands_", a, b) }

  predicate ReceptorLe(a: Dir, b: Dir) { DirLe("Receptors", a, b) }

  /** `prioritize_for_ligands(dirs)` */
  function PrioritizeForLigands(dirs: seq<Dir>): seq<Dir>
  {
    SortBy(dirs, LigandLe)
  }

  /** `prioritize_for_receptors(dirs)` */
  function PrioritizeForReceptors(dirs: seq<Dir>): seq<Dir>
  {
    SortBy(dirs, ReceptorLe)
  }

  lemma DirLeTotal(prefix: string, a: Dir, b: Dir)
    ensures DirLe(prefix, a, b) || DirLe(prefix, b, a)
  {
    if Lower(a.name) != Lower(b.name) {
      LexLtTotal(Lower(a.name), Lower(b.name));
    }
  }

  lemma DirLeTransitive(prefix: string, a: Dir, b: Dir, c: Dir)
    requires DirLe(prefix, a, b) && DirLe(prefix, b, c)
    ensures DirLe(prefix, a, c)
  {
    var x, y, z := Lower(a.name), Lower(b.name), Lower(c.name);
    if Rank(prefix, a) == Rank(prefix, b) == Rank(prefix, c) && x != y && y != z {
      LexLtTransitive(x, y, z);
    }
  }

  lemma LigandLeTotalPreorder()
    ensures TotalPreorder(LigandLe)
  {
    forall a: Dir, b: Dir ensures LigandLe(a, b) || LigandLe(b, a) {
      DirLeTotal("Ligands_", a, b);
    }
    forall a: Dir, b: Dir, c: Dir | LigandLe(a, b) && LigandLe(b, c) ensures LigandLe(a, c) {
      DirLeTransitive("Ligands_", a, b, c);
    }
  }

  lemma ReceptorLeTotalPreorder()
    ensures TotalPreorder(ReceptorLe)
  {
    forall a: Dir, b: Dir ensures ReceptorLe(a, b) || ReceptorLe(b, a) {
      DirLeTotal("Receptors", a, b);
    }
    forall a: Dir, b: Dir, c: Dir | ReceptorLe(a, b) && ReceptorLe(b, c) ensures ReceptorLe(a, c) {
      DirLeTransitive("Receptors", a, b, c);
    }
  }

  /**
   * The ligand candidates: every directory, each once, by rank and then by
   * lower-cased name; directories with equal keys keep their listed order.
   */
  lemma LigandCandidatesOrdered(dirs: seq<Dir>)
    ensures multiset(PrioritizeForLigands(dirs)) == multiset(dirs)
    ensures var out := PrioritizeForLigands(dirs);
      forall i, j :: 0 <= i < j < |out| ==>
        Rank("Ligands_", out[i]) <= Rank("Ligands_", out[j])
        && (Rank("Ligands_", out[i]) == Rank("Ligands_", out[j]) ==> LexLe(Lower(out[i].name), Lower(out[j].name)))
    ensures forall c :: SameKey(PrioritizeForLigands(dirs), LigandLe, c) == SameKey(dirs, LigandLe, c)
  {
    LigandLeTotalPreorder();
    SortBySorted(dirs, LigandLe);
    forall c ensures SameKey(PrioritizeForLigands(dirs), LigandLe, c) == SameKey(dirs, LigandLe, c) {
      SortByStable(dirs, LigandLe, c);
    }
  }

  /** The receptor candidates, ordered the same way with the prefix `Receptors`. */
  lemma ReceptorCandidatesOrdered(dirs: seq<Dir>)
    ensures multiset(PrioritizeForReceptors(dirs)) == multiset(dirs)
    ensures var out := PrioritizeForReceptors(dirs);
      forall i, j :: 0 <= i < j < |out| ==>
        Rank("Receptors", out[i]) <= Rank("Receptors", out[j])
        && (Rank("Receptors", out[i]) == Rank("Receptors", out[j]) ==> LexLe(Lower(out[i].name), Lower(out[j].name)))
    ensures forall c :: SameKey(PrioritizeForReceptors(dirs), ReceptorLe, c) == SameKey(dirs, ReceptorLe, c)
  {
    ReceptorLeTotalPreorder();
    SortBySorted(dirs, ReceptorLe);
    forall c ensures SameKey(PrioritizeForReceptors(dirs), ReceptorLe, c) == SameKey(dirs, ReceptorLe, c) {
      SortByStable(dirs, ReceptorLe, c);
    }
  }

  // ---------- tags ----------

  /** `ligand_tag(name)`: `CPD<digits>` for a `Ligands_CPD<digits>_Ligands...` name, the name itself otherwise. */
  function LigandTag(name: string): (r: string)
    ensures BatchDocking.CpdNumber(name).Some? ==> r == "CPD" + BatchDocking.CpdNumber(name).value
    ensures BatchDocking.CpdNumber(name).None? ==> r == name
  {
    match BatchDocking.CpdNumber(name)
    case Some(d) => "CPD" + d
    case None => name
  }

  /** `receptor_tag(name)`: one leading `Receptors_` removed. */
  function ReceptorTag(name: string): (r: string)
    ensures StartsWith(name, "Receptors_") ==> name == "Receptors_" + r
    ensures !StartsWith(name, "Receptors_") ==> r == name
  {
    BatchDocking.ReceptorBase(name)
  }

  /** The docking script's ligand tag agrees with this one on CPD folders. */
  lemma LigandTagsAgreeOnCpd(d: string, rest: string)
    requires IsDigits(d)
    ensures LigandTag("Ligands_CPD" + d + "_Ligands" + rest) == BatchDocking.LigandTagOfName("Ligands_CPD" + d + "_Ligands" + rest)
  {
    BatchDocking.CpdNumberFinds(d, rest);
  }

  /** On other names they part: this tag keeps a space, the docking script's replaces it. */
  lemma LigandTagsDifferOnSpace()
    ensures LigandTag("a b") == "a b" && BatchDocking.LigandTagOfName("a b") == "a_b"
  {
    NoCpdNumber("a b");
    SpaceReplaced();
    StripUnderscoreNoop("a_b");
  }

  lemma NoCpdNumber(name: string)
    requires |name| < 11
    ensures BatchDocking.CpdNumber(name) == None
  {
  }

  lemma SpaceReplaced()
    ensures ReplaceDisallowed("a b") == "a_b"
  {
    var s := "a b";
    var r := ReplaceDisallowed(s);
    assert TagChar(s[0]) && !TagChar(s[1]) && TagChar(s[2]);
    assert r == [r[0], r[1], r[2]];
  }

  lemma StripUnderscoreNoop(s: string)
    requires s != [] && s[0] != '_' && s[|s| - 1] != '_'
    ensures StripSet(s, {'_'}) == s
  {
    StripSetNoop(s, {'_'});
  }

  // ---------- selections ----------

  /** A single-choice prompt: the answer must select exactly one index (exit 2 otherwise). */
  function SelectOne(answer: string, n: nat): (r: Result<nat, int>)
    ensures r.Ok? <==> |ParsedIndices(answer, n, 1)| == 1
    ensures r.Ok? ==> r.value < n && r.value == ParsedIndices(answer, n, 1)[0]
    ensures r.Err? ==> r.error == 2
  {
    var idxs := ParsedIndices(answer, n, 1);
    if |idxs| != 1 then Err(2) else Ok(idxs[0])
  }

  /** A multi-choice prompt: the answer must select at least one index (exit 2 otherwise). */
  function SelectMany(answer: string, n: nat): (r: Result<seq<nat>, int>)
    ensures r.Ok? <==> ParsedIndices(answer, n, 1) != []
    ensures r.Ok? ==>
      r.value == ParsedIndices(answer, n, 1) && StrictlyIncreasing(r.value) && forall i :: 0 <= i < |r.value| ==> r.value[i] < n
    ensures r.Err? ==> r.error == 2
  {
    var idxs := ParsedIndices(answer, n, 1);
    if idxs == [] then Err(2) else Ok(idxs)
  }

  /** `[candidates[i] for i in idxs]` */
  function Pick<T>(candidates: seq<T>, idxs: seq<nat>): (r: seq<T>)
    requires forall i :: 0 <= i < |idxs| ==> idxs[i] < |candidates|
    ensures |r| == |idxs| && forall i :: 0 <= i < |idxs| ==> r[i] == candidates[idxs[i]]
  {
    seq(|idxs|, i requires 0 <= i < |idxs| => candidates[idxs[i]])
  }

  // ---------- jobs ----------

  /** The values one LSF file is written with. */
  datatype LsfJob = LsfJob(jobtag: string, receptors: string, ligands: string, centersCsv: string, poses: int)

  /** `{rec_tag}_{lig_tag}` */
  function JobTag(recDir: string, ligDir: string): string
  {
    ReceptorTag(recDir) + "_" + LigandTag(ligDir)
  }

  /** `run_vina_{jobtag}.lsf` */
  function LsfName(jobtag: string): string
  {
    "run_vina_" + jobtag + ".lsf"
  }

  /** The jobs of one receptor directory with its centres CSV: one per ligand directory, in order. */
  function RowJobs(rec: string, centersCsv: string, ligs: seq<string>, poses: int): (js: seq<LsfJob>)
    ensures |js| == |ligs|
  {
    seq(|ligs|, l requires 0 <= l < |ligs| => LsfJob(JobTag(rec, ligs[l]), rec, ligs[l], centersCsv, poses))
  }

  /** Job `l` of a row pairs the receptor directory with ligand directory `l`. */
  lemma RowJobsAt(rec: string, centersCsv: string, ligs: seq<string>, poses: int, l: nat)
    requires l < |ligs|
    ensures RowJobs(rec, centersCsv, ligs, poses)[l] == LsfJob(JobTag(rec, ligs[l]), rec, ligs[l], centersCsv, poses)
  {
  }

  /** The jobs of all pairs in loop order: receptor directories outer, ligand directories inner. */
  function Jobs(recs: seq<string>, centers: seq<string>, ligs: seq<string>, poses: int): (js: seq<LsfJob>)
    requires |centers| == |recs|
    ensures |js| == |recs| * |ligs|
  {
    if recs == [] then []
    else
      var n := |recs| - 1;
      Jobs(recs[..n], centers[..n], ligs, poses) + RowJobs(recs[n], centers[n], ligs, poses)
  }

  /** The pair (receptor directory `r`, ligand directory `l`) is job `r * |ligs| + l`. */
  lemma {:induction false} JobsRowMajor(recs: seq<string>, centers: seq<string>, ligs: seq<string>, poses: int, r: nat, l: nat)
    requires |centers| == |recs| && r < |recs| && l < |ligs|
    ensures r * |ligs| + l < |recs| * |ligs|
    ensures Jobs(recs, centers, ligs, poses)[r * |ligs| + l] == RowJobs(recs[r], centers[r], ligs, poses)[l]
  {
    var n := |recs| - 1;
    var front := Jobs(recs[..n], centers[..n], ligs, poses);
    assert |front| == n * |ligs|;
    if r < n {
      JobsRowMajor(recs[..n], centers[..n], ligs, poses, r, l);
      assert (r + 1) * |ligs| <= n * |ligs| by { MulMono(r + 1, n, |ligs|); }
    } else {
      assert r * |ligs| + l == |front| + l;
    }
    assert (r + 1) * |ligs| <= |recs| * |ligs| by { MulMono(r + 1, |recs|, |ligs|); }
  }

  lemma MulMono(a: nat, b: nat, c: nat)
    requires a <= b
    ensures a * c <= b * c
  {
  }

  /** Writing the files one after the other into `m`: a later file of the same name replaces an earlier one. */
  function WrittenFrom(m: map<string, LsfJob>, js: seq<LsfJob>): map<string, LsfJob>
  {
    if js == [] then m else WrittenFrom(m, js[..|js| - 1])[LsfName(js[|js| - 1].jobtag) := js[|js| - 1]]
  }

  /** The files a run writes. */
  function Written(js: seq<LsfJob>): map<string, LsfJob>
  {
    WrittenFrom(map[], js)
  }

  lemma {:induction false} WrittenFromConcat(m: map<string, LsfJob>, a: seq<LsfJob>, b: seq<LsfJob>)
    ensures WrittenFrom(m, a + b) == WrittenFrom(WrittenFrom(m, a), b)
    decreases |b|
  {
    if b == [] {
      assert a + b == a;
    } else {
      assert (a + b)[..|a + b| - 1] == a + b[..|b| - 1];
      WrittenFromConcat(m, a, b[..|b| - 1]);
    }
  }

  /** `out_paths`: one name per job, duplicates included. */
  function OutNames(js: seq<LsfJob>): (r: seq<string>)
    ensures |r| == |js| && forall k :: 0 <= k < |js| ==> r[k] == LsfName(js[k].jobtag)
  {
    seq(|js|, k requires 0 <= k < |js| => LsfName(js[k].jobtag))
  }

  /** `rec_to_cent`: each chosen receptor directory with the centres CSV picked for it. */
  method CentersByReceptor(recs: seq<string>, centers: seq<string>) returns (recToCent: map<string, string>)
    requires |centers| == |recs|
    requires forall a, b :: 0 <= a < b < |recs| ==> recs[a] != recs[b]
    ensures recToCent.Keys == set k | 0 <= k < |recs| :: recs[k]
    ensures forall k :: 0 <= k < |recs| ==> recToCent[recs[k]] == centers[k]
  {
    recToCent := map[];
    var i := 0;
    while i < |recs|
      invariant i <= |recs|
      invariant recToCent.Keys == set k | 0 <= k < i :: recs[k]
      invariant forall k :: 0 <= k < i ==> recToCent[recs[k]] == centers[k]
    {
      recToCent := recToCent[recs[i] := centers[i]];
      i := i + 1;
    }
  }

  /** The inner loop: the jobs of one receptor directory, written and listed. */
  method WriteRow(outPaths: seq<string>, files: map<string, LsfJob>, rec: string, centersCsv: string, ligs: seq<string>, poses: int)
    returns (outPaths': seq<string>, files': map<string, LsfJob>)
    ensures outPaths' == outPaths + OutNames(RowJobs(rec, centersCsv, ligs, poses))
    ensures files' == WrittenFrom(files, RowJobs(rec, centersCsv, ligs, poses))
  {
    var row := RowJobs(rec, centersCsv, ligs, poses);
    outPaths', files' := WriteJobs(outPaths, files, row);
  }

  /** `write_lsf` for each job in turn, each name appended to `out_paths`. */
  method WriteJobs(outPaths: seq<string>, files: map<string, LsfJob>, js: seq<LsfJob>)
    returns (outPaths': seq<string>, files': map<string, LsfJob>)
    ensures outPaths' == outPaths + OutNames(js)
    ensures files' == WrittenFrom(files, js)
  {
    outPaths', files' := outPaths, files;
    var l := 0;
    while l < |js|
      invariant l <= |js|
      invariant outPaths' == outPaths + OutNames(js[..l]) && files' == WrittenFrom(files, js[..l])
    {
      var job := js[l];
      assert js[..l + 1] == js[..l] + [job];
      assert js[..l + 1][..l] == js[..l];
      files' := files'[LsfName(job.jobtag) := job];
      outPaths' := outPaths' + [LsfName(job.jobtag)];
      l := l + 1;
    }
    assert js[..l] == js;
  }

  /**
   * The nested loops of main's mode 2 (mode 1 is the case of one receptor
   * directory): every pair's file is written and its name listed.
   */
  method BuildJobs(recs: seq<string>, centers: seq<string>, ligs: seq<string>, poses: int)
    returns (outPaths: seq<string>, files: map<string, LsfJob>)
    requires |centers| == |recs|
    requires forall a, b :: 0 <= a < b < |recs| ==> recs[a] != recs[b]
    ensures outPaths == OutNames(Jobs(recs, centers, ligs, poses))
    ensures files == Written(Jobs(recs, centers, ligs, poses))
  {
    var recToCent := CentersByReceptor(recs, centers);
    outPaths := [];
    files := map[];
    var r := 0;
    while r < |recs|
      invariant r <= |recs|
      invariant outPaths == OutNames(Jobs(recs[..r], centers[..r], ligs, poses))
      invariant files == Written(Jobs(recs[..r], centers[..r], ligs, poses))
    {
      ghost var before := Jobs(recs[..r], centers[..r], ligs, poses);
      ghost var row := RowJobs(recs[r], centers[r], ligs, poses);
      JobsSnoc(recs, centers, ligs, poses, r);
      outPaths, files := WriteRow(outPaths, files, recs[r], recToCent[recs[r]], ligs, poses);
      WrittenFromConcat(map[], before, row);
      OutNamesConcat(before, row);
      r := r + 1;
    }
    assert recs[..r] == recs && centers[..r] == centers;
  }

  lemma JobsSnoc(recs: seq<string>, centers: seq<string>, ligs: seq<string>, poses: int, r: nat)
    requires |centers| == |recs| && r < |recs|
    ensures Jobs(recs[..r + 1], centers[..r + 1], ligs, poses)
         == Jobs(recs[..r], centers[..r], ligs, poses) + RowJobs(recs[r], centers[r], ligs, poses)
  {
    assert recs[..r + 1][..r] == recs[..r] && centers[..r + 1][..r] == centers[..r];
  }

  lemma OutNamesConcat(a: seq<LsfJob>, b: seq<LsfJob>)
    ensures OutNames(a + b) == OutNames(a) + OutNames(b)
  {
  }

  /** Each written file holds the last job listed under its name; no other file is written. */
  lemma {:induction false} WrittenLastWins(js: seq<LsfJob>)
    ensures forall name :: name in Written(js) <==> name in OutNames(js)
    ensures forall k :: 0 <= k < |js| && (forall m :: k < m < |js| ==> js[m].jobtag != js[k].jobtag) ==>
      Written(js)[LsfName(js[k].jobtag)] == js[k]
  {
    if js != [] {
      var init := js[..|js| - 1];
      WrittenLastWins(init);
      assert OutNames(js) == OutNames(init) + [LsfName(js[|js| - 1].jobtag)];
      forall k | 0 <= k < |js| && (forall m :: k < m < |js| ==> js[m].jobtag != js[k].jobtag)
        ensures Written(js)[LsfName(js[k].jobtag)] == js[k]
      {
        if k < |js| - 1 {
          assert js[|js| - 1].jobtag != js[k].jobtag;
          NameInjective(js[|js| - 1].jobtag, js[k].jobtag);
          assert init[k] == js[k];
          assert forall m :: k < m < |init| ==> init[m].jobtag != init[k].jobtag by {
            forall m | k < m < |init| ensures init[m].jobtag != init[k].jobtag {
              assert init[m] == js[m];
            }
          }
        }
      }
    }
  }

  lemma NameInjective(a: string, b: string)
    ensures LsfName(a) == LsfName(b) ==> a == b
  {
    assert a == LsfName(a)[9..|LsfName(a)| - 4];
    assert b == LsfName(b)[9..|LsfName(b)| - 4];
  }

  /**
   * Receptor folders `Receptors_A` and `A` give the same tag: their two jobs
   * share one file, which holds the second, yet both names are listed for
   * submission.
   */
  lemma EqualTagsShareAFile(lig: string, poses: int)
    ensures var js := Jobs(["Receptors_A", "A"], ["c1.csv", "c2.csv"], [lig], poses);
      && OutNames(js)[0] == OutNames(js)[1]
      && Written(js) == map[OutNames(js)[0] := js[1]]
  {
    var recs, centers := ["Receptors_A", "A"], ["c1.csv", "c2.csv"];
    var js := Jobs(recs, centers, [lig], poses);
    JobsRowMajor(recs, centers, [lig], poses, 0, 0);
    JobsRowMajor(recs, centers, [lig], poses, 1, 0);
    RowJobsAt("Receptors_A", "c1.csv", [lig], poses, 0);
    RowJobsAt("A", "c2.csv", [lig], poses, 0);
    assert ReceptorTag("Receptors_A") == "A" by {
      assert "Receptors_A"[..10] == "Receptors_";
    }
    assert !StartsWith("A", "Receptors_");
    assert js[0].jobtag == js[1].jobtag;
    var name := LsfName(js[0].jobtag);
    var first := js[..1];
    assert first[..0] == [];
    assert WrittenFrom(map[], first) == map[name := js[0]];
    assert js[..|js| - 1] == first;
  }

  // ---------- the submitter ----------

  function HeaderLines(n: nat): seq<string>
  {
    ["#!/bin/bash", "set -euo pipefail", "echo \"Submitting " + NatToString(n) + " docking jobs...\""]
  }

  function BsubLines(names: seq<string>): (r: seq<string>)
    ensures |r| == |names| && forall i :: 0 <= i < |names| ==> r[i] == "bsub < \"" + names[i] + "\""
  {
    seq(|names|, i requires 0 <= i < |names| => "bsub < \"" + names[i] + "\"")
  }

  /** `write_submitter(paths)` */
  method WriteSubmitter(names: seq<string>) returns (text: string)
    ensures text == Join(HeaderLines(|names|) + BsubLines(names), "\n") + "\n"
  {
    var lines := HeaderLines(|names|);
    var i := 0;
    while i < |names|
      invariant i <= |names| && lines == HeaderLines(|names|) + BsubLines(names[..i])
    {
      assert BsubLines(names[..i + 1]) == BsubLines(names[..i]) + ["bsub < \"" + names[i] + "\""];
      lines := lines + ["bsub < \"" + names[i] + "\""];
      i := i + 1;
    }
    assert names[..i] == names;
    text := Join(lines, "\n") + "\n";
  }

  /** Read back line by line: the three header lines, one `bsub` line per job in order, then the empty tail. */
  lemma SubmitterReadsBack(names: seq<string>)
    requires forall i :: 0 <= i < |names| ==> '\n' !in names[i]
    ensures Split(Join(HeaderLines(|names|) + BsubLines(names), "\n") + "\n", '\n')
         == HeaderLines(|names|) + BsubLines(names) + [""]
  {
    var lines := HeaderLines(|names|) + BsubLines(names);
    assert '\n' !in NatToString(|names|) by {
      assert forall k :: 0 <= k < |NatToString(|names|)| ==> IsDigit(NatToString(|names|)[k]);
    }
    forall i | 0 <= i < |lines| ensures '\n' !in lines[i] {
      if i >= 3 {
        assert lines[i] == "bsub < \"" + names[i - 3] + "\"";
      }
    }
    SplitAfterLines(lines, "", '\n');
    assert Join(lines, "\n") + "\n" + "" == Join(lines, "\n") + "\n";
  }
}
