/**
 * The PDB coordinate-record view shared by the receptor clean-up in the web
 * front end and the batch PDB-to-PDBQT converter: an ATOM/HETATM line, and
 * its residue name, which sits in columns 18-20 (`line[17:20]`) of the wwPDB
 * PDB File Format v3.3.
 */
module PdbRecords {
  import opened Wrappers
  import opened Text

  function Min(a: nat, b: nat): nat { if a <= b then a else b }

  /** Python's `s[lo:hi]` for `0 <= lo <= hi`: bounds past the end are clamped. */
  function Slice(s: string, lo: nat, hi: nat): (r: string)
    requires lo <= hi
    ensures |r| <= hi - lo
    ensures hi <= |s| ==> r == s[lo..hi]
  {
    s[Min(lo, |s|)..Min(hi, |s|)]
  }

  /** `line.startswith(("ATOM", "HETATM"))` */
  predicate IsAtomLine(line: string)
  {
    StartsWith(line, "ATOM") || StartsWith(line, "HETATM")
  }

  /** `line[17:20].strip().upper()`: never holds a lower-case letter. */
  function ResName(line: string): (r: string)
    ensures HasNoLower(r)
  {
    UpperHasNoLower(Strip(Slice(line, 17, 20)));
    Upper(Strip(Slice(line, 17, 20)))
  }

  /** The twenty standard amino acids. */
  const Standard: set<string> := {"ALA", "ARG", "ASN", "ASP", "CYS", "GLN", "GLU", "GLY", "HIS", "ILE",
                                  "LEU", "LYS", "MET", "PHE", "PRO", "SER", "THR", "TRP", "TYR", "VAL"}

  /**
   * A residue name right-justified in columns 18-20, behind blanks, reads
   * back upper-cased, whatever the rest of the line holds.
   */
  lemma ResNameOfColumns(line: string, pad: string, name: string)
    requires |line| >= 20 && line[17..20] == pad + name
    requires forall i :: 0 <= i < |pad| ==> IsSpace(pad[i])
    requires name != [] && !IsSpace(name[0]) && !IsSpace(name[|name| - 1])
    ensures ResName(line) == Upper(name)
  {
    PaddedName(pad, name);
    ResNameIs(line, pad + name, name);
  }

  lemma ResNameIs(line: string, field: string, name: string)
    requires Slice(line, 17, 20) == field && Strip(field) == name
    ensures ResName(line) == Upper(name)
  {
  }

  lemma PaddedName(pad: string, name: string)
    requires forall i :: 0 <= i < |pad| ==> IsSpace(pad[i])
    requires name != [] && !IsSpace(name[0]) && !IsSpace(name[|name| - 1])
    ensures Strip(pad + name) == name
  {
    assert pad + name == pad + name + [];
    StripPadded(pad, name, []);
  }

  /**
   * Reads a file line by line and writes each line `keep` accepts to the
   * output, as both residue clean-ups do: the written lines are the
   * filtered input.
   */
  method StreamKept(lines: seq<string>, keep: string -> bool) returns (written: seq<string>)
    ensures written == Filter(lines, keep)
  {
    written := [];
    var i := 0;
    while i < |lines|
      invariant i <= |lines|
      invariant written == Filter(lines[..i], keep)
    {
      assert lines[..i + 1][..i] == lines[..i];
      if keep(lines[i]) {
        written := written + [lines[i]];
      }
      i := i + 1;
    }
    assert lines[..i] == lines;
  }
}
