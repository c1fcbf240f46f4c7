/**
 * The batch receptor converter: every `*.pdb` file of a folder, in sorted
 * order, is copied without the ATOM/HETATM records of the residues the user
 * lists, and the copy is handed to the receptor preparation program, whose
 * output is named `<name>.converted.pdbqt`. The prompts are replaced by the
 * folder and the residue text as parameters, the directory listing and file
 * contents by `listing` and `read`, and the preparation program by an
 * oracle telling whether it succeeded.
 */
module PdbToPdbqt {
  import opened Wrappers
  import opened Text
  import opened Paths
  import opened Sorting
  import opened PdbRecords
  import Packager
  import WebApp

  // ---------- the residues to remove ----------

  /** The comma-separated residue names, each stripped and upper-cased, blank entries dropped. */
  function ResiduesToRemove(input: string): (r: set<string>)
    ensures forall x :: x in r ==> x != "" && HasNoLower(x)
  {
    set piece | piece in Split(input, ',') && Strip(piece) != "" :: Upper(Strip(piece))
  }

  /** Typing names separated by commas removes those names, upper-cased. */
  lemma RemoveListOf(names: seq<string>)
    requires |names| >= 1
    requires forall i :: 0 <= i < |names| ==> ',' !in names[i]
    requires forall i :: 0 <= i < |names| ==> names[i] != [] && !IsSpace(names[i][0]) && !IsSpace(names[i][|names[i]| - 1])
    ensures ResiduesToRemove(Join(names, ",")) == set n | n in names :: Upper(n)
  {
    SplitJoin(names, ',');
    assert Split(Join(names, ","), ',') == names;
    forall n | n in names
      ensures Strip(n) == n
    {
      StripNoop(n);
    }
  }

  // ---------- the cleaned copy ----------

  /** A line the copy keeps: anything but an ATOM/HETATM record of a removed residue. */
  function Survives(remove: set<string>): string -> bool
  {
    line => !(IsAtomLine(line) && ResName(line) in remove)
  }

  /** A line is in the copy exactly when it was in the file and is not a removed residue's record. */
  lemma CopyKeeps(lines: seq<string>, remove: set<string>, line: string)
    ensures line in Filter(lines, Survives(remove)) <==>
      line in lines && (!IsAtomLine(line) || ResName(line) !in remove)
  {
    FilterMembers(lines, Survives(remove), line);
  }

  /** The copy keeps the file's order: the copies of two halves make up the copy of the whole. */
  lemma CopyInOrder(a: seq<string>, b: seq<string>, remove: set<string>)
    ensures Filter(a + b, Survives(remove)) == Filter(a, Survives(remove)) + Filter(b, Survives(remove))
  {
    FilterConcat(a, b, Survives(remove));
  }

  /**
   * The web clean-up keeping `keep` writes the same lines as this removal of
   * every other non-standard residue the file holds.
   */
  lemma WebCleanIsRemoval(lines: seq<string>, keep: set<string>)
    ensures Filter(lines, WebApp.Kept(keep)) == Filter(lines, Survives(WebApp.NonStandard(lines) - keep))
  {
    var remove := WebApp.NonStandard(lines) - keep;
    forall i | 0 <= i < |lines|
      ensures WebApp.Kept(keep)(lines[i]) == Survives(remove)(lines[i])
    {
      if IsAtomLine(lines[i]) {
        WebApp.NonStandardHas(lines, ResName(lines[i]));
      }
    }
    FilterAgree(lines, WebApp.Kept(keep), Survives(remove));
  }

  // ---------- names ----------

  /** Only names ending in `.pdb` are converted. */
  predicate IsPdbName(name: string)
  {
    EndsWith(name, ".pdb")
  }

  /** The files converted, in the order they are converted: the sorted listing's PDB names. */
  function PdbFiles(listing: seq<string>): seq<string>
  {
    Filter(SortBy(listing, LexLe), IsPdbName)
  }

  /** A name is converted exactly when it is listed and ends in `.pdb`; so no `.pdbqt` file is. */
  lemma PdbFilesAre(listing: seq<string>, name: string)
    ensures name in PdbFiles(listing) <==> name in listing && EndsWith(name, ".pdb")
    ensures EndsWith(name, ".pdbqt") ==> name !in PdbFiles(listing)
  {
    FilterMembers(SortBy(listing, LexLe), IsPdbName, name);
    assert name in SortBy(listing, LexLe) <==> name in multiset(SortBy(listing, LexLe));
    if EndsWith(name, ".pdbqt") {
      PdbqtIsNotPdb(name);
    }
  }

  lemma PdbqtIsNotPdb(name: string)
    requires EndsWith(name, ".pdbqt")
    ensures !EndsWith(name, ".pdb")
  {
    assert name[|name| - 1] == name[|name| - 6..][5] == 't';
    assert ".pdb"[3] == 'b';
  }

  /** The files are converted in increasing name order. */
  lemma PdbFilesSorted(listing: seq<string>)
    ensures forall i, j :: 0 <= i < j < |PdbFiles(listing)| ==> LexLe(PdbFiles(listing)[i], PdbFiles(listing)[j])
  {
    assert TotalPreorder(LexLe) by {
      forall a: string, b: string
        ensures LexLe(a, b) || LexLe(b, a)
      {
        if a != b {
          LexLtTotal(a, b);
        }
      }
      forall a: string, b: string, c: string | LexLe(a, b) && LexLe(b, c)
        ensures LexLe(a, c)
      {
        if a != b && b != c {
          LexLtTransitive(a, b, c);
        }
      }
    }
    SortBySorted(listing, LexLe);
    FilterSorted(SortBy(listing, LexLe), IsPdbName, LexLe);
  }

  /** The converted file's name: every `.pdb` removed, then `.converted.pdbqt` appended. */
  function OutputName(fname: string): (r: string)
    ensures EndsWith(r, ".converted.pdbqt")
  {
    EndsWithAppend(ReplaceAll(fname, ".pdb", ""), ".converted.pdbqt");
    ReplaceAll(fname, ".pdb", "") + ".converted.pdbqt"
  }

  /** For `X.pdb` with a dotless `X` the output is `X.converted.pdbqt`. */
  lemma OutputNameOfStem(x: string)
    requires '.' !in x
    ensures OutputName(x + ".pdb") == x + ".converted.pdbqt"
  {
    ReplaceAfterClean(x, ".pdb", ".pdb", "");
    ReplaceSelf(".pdb", "");
  }

  /** The packager renames the converter's `X.converted.pdbqt` back to `X.pdbqt`. */
  lemma ConvertedThenRenamed(x: string)
    requires x != [] && '.' !in x
    ensures Packager.ConvertedRename(OutputName(x + ".pdb")) == Some(x + ".pdbqt")
  {
    OutputNameOfStem(x);
    Packager.ConvertedRenameOfStem(x);
  }

  // ---------- the conversion loop ----------

  /** Where the cleaned copies are written before conversion. */
  const TempDir := ".temp_cleaned_pdbs"

  /** Where the converted files go: the folder's name with `_PDBQT_Converted`. */
  function OutputDir(folder: string): string
  {
    folder + "_PDBQT_Converted"
  }

  /** What happened to one file: its cleaned copy and where it went, and whether conversion succeeded. */
  datatype Attempt = Attempt(fname: string, cleanedPath: string, cleaned: seq<string>, outputPath: string, converted: bool)

  /** The attempt for one `.pdb` file. */
  function AttemptFor(folder: string, fname: string, remove: set<string>,
                      read: string -> seq<string>, convert: (string, string) -> bool): Attempt
  {
    var cleanedPath := JoinPath(TempDir, fname);
    var outputPath := JoinPath(OutputDir(folder), OutputName(fname));
    Attempt(fname, cleanedPath, Filter(read(JoinPath(folder, fname)), Survives(remove)), outputPath,
            convert(cleanedPath, outputPath))
  }

  /** One file: its cleaned copy written, then the preparation program run on it. */
  method ConvertOne(folder: string, fname: string, remove: set<string>,
                    read: string -> seq<string>, convert: (string, string) -> bool) returns (a: Attempt)
    ensures a == AttemptFor(folder, fname, remove, read, convert)
  {
    var cleanedPath := JoinPath(TempDir, fname);
    var cleaned := StreamKept(read(JoinPath(folder, fname)), Survives(remove));
    var outputPath := JoinPath(OutputDir(folder), OutputName(fname));
    var ok := convert(cleanedPath, outputPath);
    a := Attempt(fname, cleanedPath, cleaned, outputPath, ok);
  }

  /**
   * The module-level loop: one attempt per `.pdb` file in sorted order. A
   * failed conversion is reported in its attempt and the loop goes on, so
   * the attempts do not depend on earlier outcomes.
   */
  method ConvertFolder(folder: string, listing: seq<string>, residueInput: string,
                       read: string -> seq<string>, convert: (string, string) -> bool) returns (log: seq<Attempt>)
    ensures |log| == |PdbFiles(listing)|
    ensures forall i :: 0 <= i < |log| ==>
      log[i] == AttemptFor(folder, PdbFiles(listing)[i], ResiduesToRemove(residueInput), read, convert)
  {
    var remove := ResiduesToRemove(residueInput);
    var names := SortBy(listing, LexLe);
    log := [];
    var i := 0;
    while i < |names|
      invariant i <= |names|
      invariant |log| == |Filter(names[..i], IsPdbName)|
      invariant forall k :: 0 <= k < |log| ==>
        log[k] == AttemptFor(folder, Filter(names[..i], IsPdbName)[k], remove, read, convert)
    {
      FilterSnoc(names, IsPdbName, i);
      if IsPdbName(names[i]) {
        var a := ConvertOne(folder, names[i], remove, read, convert);
        log := log + [a];
      }
      i := i + 1;
    }
    assert names[..i] == names;
  }
}
