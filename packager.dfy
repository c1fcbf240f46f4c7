/**
 * The job packager's bookkeeping: the centres-CSV upsert, the choice of the
 * receptor PDBQT directory, the `.converted.` rename rule and the
 * receptor-tag map read from a centres CSV.
 */
module Packager {
  import opened Wrappers
  import opened Text
  import opened Paths

  // ---------- CSV rows ----------

  /** A `csv.DictReader` row: each header column to its cell, `None` where a short record runs out. */
  type CsvRow = map<string, Option<string>>

  /** `row.get(k)`: a missing key and a `None` cell both give `None`. */
  function Get(row: CsvRow, k: string): Option<string>
  {
    if k in row then row[k] else None
  }

  /** Python truthiness of a cell. */
  predicate Truthy(v: Option<string>)
  {
    v.Some? && v.value != ""
  }

  // ---------- write_centers_csv_row ----------

  /** The writer's fixed field names, which are also its header. */
  const Fields: seq<string> := ["PDBQT", "center_x", "center_y", "center_z", "size"]

  /** The values written for one receptor, as the text the writer emits for them. */
  datatype Centre = Centre(x: string, y: string, z: string, size: string)

  /** `row.get("PDBQT") or row.get("pdbqt")` */
  function Key(row: CsvRow): Option<string>
  {
    if Truthy(Get(row, "PDBQT")) then Get(row, "PDBQT") else Get(row, "pdbqt")
  }

  /** `row.update({...})`: the five fields set, every other key kept. */
  function Updated(row: CsvRow, name: string, c: Centre): (r: CsvRow)
    ensures r.Keys == row.Keys + {"PDBQT", "center_x", "center_y", "center_z", "size"}
    ensures Get(r, "PDBQT") == Some(name) && Get(r, "center_x") == Some(c.x) && Get(r, "center_y") == Some(c.y)
    ensures Get(r, "center_z") == Some(c.z) && Get(r, "size") == Some(c.size)
    ensures forall k :: k in row && k !in Fields ==> r[k] == row[k]
  {
    row["PDBQT" := Some(name)]["center_x" := Some(c.x)]["center_y" := Some(c.y)]["center_z" := Some(c.z)]["size" := Some(c.size)]
  }

  /** The first row whose key equals the name, if any. */
  function FirstMatch(rows: seq<CsvRow>, name: string): (r: Option<nat>)
    ensures r.Some? ==> r.value < |rows| && Key(rows[r.value]) == Some(name)
    ensures r.Some? ==> forall j :: 0 <= j < r.value ==> Key(rows[j]) != Some(name)
    ensures r.None? ==> forall j :: 0 <= j < |rows| ==> Key(rows[j]) != Some(name)
  {
    if rows == [] then None
    else if Key(rows[0]) == Some(name) then Some(0)
    else match FirstMatch(rows[1..], name)
      case None => None
      case Some(k) => Some(k + 1)
  }

  /** The rows after the update loop: the first match updated in place, or one new row at the end. */
  function Upserted(rows: seq<CsvRow>, name: string, c: Centre): seq<CsvRow>
  {
    match FirstMatch(rows, name)
    case Some(k) => rows[k := Updated(rows[k], name, c)]
    case None => rows + [Updated(map[], name, c)]
  }

  /** The search loop with its `seen` flag and `break`. */
  method UpsertRows(rows: seq<CsvRow>, name: string, c: Centre) returns (rows': seq<CsvRow>)
    ensures rows' == Upserted(rows, name, c)
  {
    rows' := rows;
    var seen := false;
    var i := 0;
    while i < |rows'|
      invariant i <= |rows| && rows' == rows && !seen
      invariant forall j :: 0 <= j < i ==> Key(rows[j]) != Some(name)
    {
      if Key(rows'[i]) == Some(name) {
        rows' := rows'[i := Updated(rows'[i], name, c)];
        seen := true;
        break;
      }
      i := i + 1;
    }
    if !seen {
      rows' := rows' + [Updated(map[], name, c)];
    }
  }

  /**
   * The upsert touches exactly one row and it holds the new values: the first
   * matching row if there is one (the count unchanged), else a row appended at
   * the end. Every other row is kept, in order.
   */
  lemma UpsertTouchesOneRow(rows: seq<CsvRow>, name: string, c: Centre)
    ensures var out := Upserted(rows, name, c);
      && |out| == (if FirstMatch(rows, name).Some? then |rows| else |rows| + 1)
      && (exists k :: 0 <= k < |out| && Get(out[k], "PDBQT") == Some(name) && Get(out[k], "center_x") == Some(c.x)
            && Get(out[k], "center_y") == Some(c.y) && Get(out[k], "center_z") == Some(c.z)
            && Get(out[k], "size") == Some(c.size)
            && forall j :: 0 <= j < |rows| && j != k ==> out[j] == rows[j])
  {
    var out := Upserted(rows, name, c);
    match FirstMatch(rows, name)
    case Some(k) =>
      assert out[k] == Updated(rows[k], name, c);
    case None =>
      var k := |rows|;
      assert out[k] == Updated(map[], name, c);
  }

  /** A second upsert of the same values changes nothing, for any non-empty name. */
  lemma UpsertIdempotent(rows: seq<CsvRow>, name: string, c: Centre)
    requires name != ""
    ensures Upserted(Upserted(rows, name, c), name, c) == Upserted(rows, name, c)
  {
    var out := Upserted(rows, name, c);
    var k := UpsertedAt(rows, name, c);
    FirstMatchIs(out, name, k);
    UpdatedTwice(out[k], name, c);
    assert out[k := out[k]] == out;
  }

  /** Where the upsert wrote: a row with the new values, after rows that do not match. */
  lemma UpsertedAt(rows: seq<CsvRow>, name: string, c: Centre) returns (k: nat)
    requires name != ""
    ensures var out := Upserted(rows, name, c);
      k < |out| && out[k] == Updated(if k < |rows| then rows[k] else map[], name, c)
      && Key(out[k]) == Some(name) && forall j :: 0 <= j < k ==> Key(out[j]) != Some(name)
  {
    var out := Upserted(rows, name, c);
    k := match FirstMatch(rows, name) case Some(k) => k case None => |rows|;
    assert forall j :: 0 <= j < k ==> out[j] == rows[j];
  }

  /** Setting the same values again changes nothing. */
  lemma UpdatedTwice(row: CsvRow, name: string, c: Centre)
    requires Get(row, "PDBQT") == Some(name) && Get(row, "center_x") == Some(c.x) && Get(row, "center_y") == Some(c.y)
    requires Get(row, "center_z") == Some(c.z) && Get(row, "size") == Some(c.size)
    ensures Updated(row, name, c) == row
  {
  }

  lemma FirstMatchIs(rows: seq<CsvRow>, name: string, k: nat)
    requires k < |rows| && Key(rows[k]) == Some(name)
    requires forall j :: 0 <= j < k ==> Key(rows[j]) != Some(name)
    ensures FirstMatch(rows, name) == Some(k)
  {
  }

  /** An empty name never matches the row it writes (its `PDBQT` cell is falsy), so every call appends again. */
  lemma EmptyNameAppendsAgain(c: Centre)
    ensures |Upserted(Upserted([], "", c), "", c)| == 2
  {
    var once := Upserted([], "", c);
    assert once == [Updated(map[], "", c)];
    assert Key(once[0]) == None;
    assert FirstMatch(once, "") == None;
  }

  // ---------- the write ----------

  /** A row the writer accepts: no key outside its field names. */
  predicate Clean(row: CsvRow)
  {
    forall k | k in row :: k in Fields
  }

  /** `DictWriter._dict_to_list`: one cell per field, `""` for a missing key or a `None` cell. */
  function Cells(row: CsvRow): (r: seq<string>)
    ensures |r| == |Fields| && forall i :: 0 <= i < |Fields| ==> r[i] == (match Get(row, Fields[i]) case Some(s) => s case None => "")
  {
    seq(|Fields|, i requires 0 <= i < |Fields| => match Get(row, Fields[i]) case Some(s) => s case None => "")
  }

  function CellRows(rows: seq<CsvRow>): (r: seq<seq<string>>)
    ensures |r| == |rows| && forall i :: 0 <= i < |rows| ==> r[i] == Cells(rows[i])
  {
    seq(|rows|, i requires 0 <= i < |rows| => Cells(rows[i]))
  }

  /** How many rows are written before the first one the writer refuses. */
  function CleanPrefix(rows: seq<CsvRow>): (r: nat)
    ensures r <= |rows| && (forall j :: 0 <= j < r ==> Clean(rows[j])) && (r < |rows| ==> !Clean(rows[r]))
  {
    if rows == [] || !Clean(rows[0]) then 0 else 1 + CleanPrefix(rows[1..])
  }

  /** The file as left behind: its records, and whether the write raised `ValueError`. */
  datatype Outcome = Outcome(records: seq<seq<string>>, raised: bool)

  /**
   * `writeheader` then `writerows` under the default `extrasaction="raise"`:
   * the rows are written one at a time, so the truncated file keeps the header
   * and the rows before the first refused one.
   */
  function WrittenAsIs(rows: seq<CsvRow>): Outcome
  {
    var n := CleanPrefix(rows);
    Outcome([Fields] + CellRows(rows[..n]), n < |rows|)
  }

  method WriteRows(rows: seq<CsvRow>) returns (out: Outcome)
    ensures out == WrittenAsIs(rows)
  {
    var records := [Fields];
    var i := 0;
    while i < |rows|
      invariant i <= |rows| && (forall j :: 0 <= j < i ==> Clean(rows[j]))
      invariant records == [Fields] + CellRows(rows[..i])
    {
      if !Clean(rows[i]) {
        assert CleanPrefix(rows) == i;
        return Outcome(records, true);
      }
      assert CellRows(rows[..i + 1]) == CellRows(rows[..i]) + [Cells(rows[i])];
      records := records + [Cells(rows[i])];
      i := i + 1;
    }
    assert rows[..i] == rows;
    out := Outcome(records, false);
  }

  /** The rows `DictReader` produced, or `[]` for a missing file. */
  function ExistingRows(existing: Option<seq<CsvRow>>): seq<CsvRow>
  {
    match existing case Some(rows) => rows case None => []
  }

  /** `write_centers_csv_row` as written. */
  method WriteCentersCsvRow(existing: Option<seq<CsvRow>>, name: string, c: Centre) returns (out: Outcome)
    ensures out == WrittenAsIs(Upserted(ExistingRows(existing), name, c))
  {
    var rows := UpsertRows(ExistingRows(existing), name, c);
    out := WriteRows(rows);
  }

  /** A missing file becomes the header and the one new row. */
  lemma MissingFileGetsOneRow(name: string, c: Centre)
    ensures WrittenAsIs(Upserted(ExistingRows(None), name, c))
         == Outcome([Fields, [name, c.x, c.y, c.z, c.size]], false)
  {
    var row := Updated(map[], name, c);
    assert Upserted([], name, c) == [row];
    FreshRowClean(name, c);
    assert CleanPrefix([row]) == 1;
    assert [row][..1] == [row];
    FreshRowCells(name, c);
  }

  lemma FreshRowClean(name: string, c: Centre)
    ensures Clean(Updated(map[], name, c))
  {
  }

  lemma FreshRowCells(name: string, c: Centre)
    ensures Cells(Updated(map[], name, c)) == [name, c.x, c.y, c.z, c.size]
  {
    var r := Cells(Updated(map[], name, c));
    assert r[0] == name && r[1] == c.x && r[2] == c.y && r[3] == c.z && r[4] == c.size;
  }

  /**
   * An existing file whose first row has a column outside the five (its
   * columns are the header's, so every row has it) raises on its first row:
   * what remains is the header alone.
   */
  lemma ExtraColumnEmptiesFile(rows: seq<CsvRow>, name: string, c: Centre)
    requires rows != [] && !Clean(rows[0])
    ensures WrittenAsIs(Upserted(rows, name, c)) == Outcome([Fields], true)
  {
    var out := Upserted(rows, name, c);
    var k :| k in rows[0] && k !in Fields;
    assert k in out[0] && out[0][k] == rows[0][k];
    assert !Clean(out[0]);
    assert CleanPrefix(out) == 0;
    assert out[..0] == [];
  }

  /** In particular the lowercase `pdbqt` fallback never leads to a written update: a row matched through it raises. */
  lemma LowercaseMatchRaises(rows: seq<CsvRow>, name: string, c: Centre)
    requires FirstMatch(rows, name).Some?
    requires !Truthy(Get(rows[FirstMatch(rows, name).value], "PDBQT"))
    ensures WrittenAsIs(Upserted(rows, name, c)).raised
  {
    var k := FirstMatch(rows, name).value;
    var out := Upserted(rows, name, c);
    assert "pdbqt" in rows[k] && "pdbqt" !in Fields;
    assert "pdbqt" in out[k];
    assert !Clean(out[k]);
  }

  /** The writer as evidently intended (`extrasaction="ignore"`): every row kept, extra columns dropped. */
  function WrittenIgnoringExtras(rows: seq<CsvRow>): Outcome
  {
    Outcome([Fields] + CellRows(rows), false)
  }

  /**
   * With extra columns ignored, the file keeps every existing row's five cells
   * and holds the new values under the name, whatever the other columns.
   */
  lemma IgnoringExtrasKeepsRows(rows: seq<CsvRow>, name: string, c: Centre)
    ensures var out := WrittenIgnoringExtras(Upserted(rows, name, c));
      && !out.raised && out.records[0] == Fields
      && |out.records| == (if FirstMatch(rows, name).Some? then |rows| + 1 else |rows| + 2)
      && [name, c.x, c.y, c.z, c.size] in out.records[1..]
      && forall j :: 0 <= j < |rows| && Key(rows[j]) != Some(name) ==> out.records[j + 1] == Cells(rows[j])
  {
    var k := UpsertedShape(rows, name, c);
    ExtrasNewRow(rows, name, c, k);
    ExtrasOtherRows(rows, name, c, k);
  }

  lemma ExtrasNewRow(rows: seq<CsvRow>, name: string, c: Centre, k: nat)
    requires var out := Upserted(rows, name, c);
      k < |out| && out[k] == Updated(if k < |rows| then rows[k] else map[], name, c)
    ensures [name, c.x, c.y, c.z, c.size] in WrittenIgnoringExtras(Upserted(rows, name, c)).records[1..]
  {
    var up := Upserted(rows, name, c);
    UpdatedCells(if k < |rows| then rows[k] else map[], name, c);
    assert WrittenIgnoringExtras(up).records[1..] == CellRows(up);
    assert CellRows(up)[k] in CellRows(up);
  }

  lemma ExtrasOtherRows(rows: seq<CsvRow>, name: string, c: Centre, k: nat)
    requires var out := Upserted(rows, name, c);
      && k < |out| && |out| >= |rows|
      && (k < |rows| ==> Key(rows[k]) == Some(name))
      && forall j :: 0 <= j < |rows| && j != k ==> out[j] == rows[j]
    ensures var out := WrittenIgnoringExtras(Upserted(rows, name, c));
      forall j :: 0 <= j < |rows| && Key(rows[j]) != Some(name) ==> out.records[j + 1] == Cells(rows[j])
  {
    var up := Upserted(rows, name, c);
    var recs := WrittenIgnoringExtras(up).records;
    forall j | 0 <= j < |rows| && Key(rows[j]) != Some(name)
      ensures recs[j + 1] == Cells(rows[j])
    {
      assert up[j] == rows[j];
      assert recs[j + 1] == CellRows(up)[j];
    }
  }

  /** The upsert's one touched row `k` and the untouched rest. */
  lemma UpsertedShape(rows: seq<CsvRow>, name: string, c: Centre) returns (k: nat)
    ensures var out := Upserted(rows, name, c);
      && k < |out| && out[k] == Updated(if k < |rows| then rows[k] else map[], name, c)
      && |out| == (if FirstMatch(rows, name).Some? then |rows| else |rows| + 1)
      && (k < |rows| ==> Key(rows[k]) == Some(name))
      && forall j :: 0 <= j < |rows| && j != k ==> out[j] == rows[j]
  {
    k := match FirstMatch(rows, name) case Some(k) => k case None => |rows|;
  }

  /** The five cells written for an updated row are the new values. */
  lemma UpdatedCells(row: CsvRow, name: string, c: Centre)
    ensures Cells(Updated(row, name, c)) == [name, c.x, c.y, c.z, c.size]
  {
  }

  // ---------- _find_pdbqt_dir ----------

  /** `Receptors_PDBQT` if it exists, else `Receptors_PDBQT_Converted` if that does, else none. */
  function FindPdbqtDir(ws: string, exists_: set<string>): (r: Option<string>)
    ensures r.Some? ==> r.value in exists_
    ensures JoinPath(ws, "Receptors_PDBQT") in exists_ ==> r == Some(JoinPath(ws, "Receptors_PDBQT"))
    ensures r.Some? && r.value != JoinPath(ws, "Receptors_PDBQT") ==> r.value == JoinPath(ws, "Receptors_PDBQT_Converted")
    ensures r.None? <==> JoinPath(ws, "Receptors_PDBQT") !in exists_ && JoinPath(ws, "Receptors_PDBQT_Converted") !in exists_
  {
    var cand1 := JoinPath(ws, "Receptors_PDBQT");
    var cand2 := JoinPath(ws, "Receptors_PDBQT_Converted");
    if cand1 in exists_ then Some(cand1)
    else if cand2 in exists_ then Some(cand2)
    else None
  }

  // ---------- _strip_converted_in_tree (the name rule) ----------

  /** The new name of a file in the tree, or none when it is left alone. */
  function ConvertedRename(name: string): (r: Option<string>)
    ensures r.Some? <==> Contains(name, ".converted.") && Lower(Suffix(name)) == ".pdbqt"
  {
    if Contains(name, ".converted.") && Lower(Suffix(name)) == ".pdbqt" then Some(ReplaceAll(name, ".converted.", "."))
    else None
  }

  /** A dotless stem: `X.converted.pdbqt` is renamed to `X.pdbqt`, and `X.pdbqt` is left alone. */
  lemma ConvertedRenameOfStem(x: string)
    requires x != [] && '.' !in x
    ensures ConvertedRename(x + ".converted.pdbqt") == Some(x + ".pdbqt")
    ensures ConvertedRename(x + ".pdbqt") == None
  {
    ContainsConverted(x);
    ConvertedSuffix(x);
    PdbqtSuffix(x);
    ReplaceConvertedStem(x);
    NoConvertedIn(x);
  }

  lemma ContainsConverted(x: string)
    ensures Contains(x + ".converted.pdbqt", ".converted.")
  {
    var n := x + ".converted.pdbqt";
    assert n[|x|..|x| + 11] == ".converted.";
    ContainsAt(n, ".converted.", |x|);
  }

  lemma ConvertedSuffix(x: string)
    ensures Lower(Suffix(x + ".converted.pdbqt")) == ".pdbqt"
  {
    var c, q := ".converted", ".pdbqt";
    assert c + q == ".converted.pdbqt";
    assert x + c + q == x + (c + q);
    PdbqtSuffix(x + c);
  }

  lemma PdbqtSuffix(b: string)
    requires b != []
    ensures Lower(Suffix(b + ".pdbqt")) == ".pdbqt"
  {
    assert b + ".pdbqt" == b + "." + "pdbqt";
    StemOfSuffixed(b, "pdbqt");
    LowerPdbqt();
  }

  lemma LowerPdbqt()
    ensures Lower(".pdbqt") == ".pdbqt"
  {
    var r := Lower(".pdbqt");
    assert |r| == 6;
    assert r[0] == '.' && r[1] == 'p' && r[2] == 'd' && r[3] == 'b' && r[4] == 'q' && r[5] == 't';
  }

  lemma ReplaceConvertedStem(x: string)
    requires '.' !in x
    ensures ReplaceAll(x + ".converted.pdbqt", ".converted.", ".") == x + ".pdbqt"
  {
    ReplaceAfterClean(x, ".converted.pdbqt", ".converted.", ".");
    var t := ".converted.pdbqt";
    assert t[..11] == ".converted.";
    assert t[11..] == "pdbqt";
    assert ReplaceAll("pdbqt", ".converted.", ".") == "pdbqt";
  }

  lemma NoConvertedIn(x: string)
    requires '.' !in x
    ensures !Contains(x + ".pdbqt", ".converted.")
  {
    var s := x + ".pdbqt";
    forall i: nat ensures !OccursAt(s, ".converted.", i) {
      if i + 11 <= |s| {
        assert s[i..i + 11][0] == s[i] == x[i];
        assert x[i] in x;
      }
    }
    NotContains(s, ".converted.");
  }

  // ---------- collect_receptor_tags ----------

  /** A `DictReader` over a file: the header as read, and the rows keyed by it. */
  datatype CsvFile = CsvFile(header: seq<string>, rows: seq<CsvRow>)

  function StrippedHeaders(header: seq<string>): (r: seq<string>)
    ensures |r| == |header| && forall i :: 0 <= i < |header| ==> r[i] == Strip(header[i])
  {
    seq(|header|, i requires 0 <= i < |header| => Strip(header[i]))
  }

  /** The column the stems come from: `PDB_ID` wins over `receptor_pdbqt`; with neither, no rows are read. */
  function TagColumn(header: seq<string>): (r: Option<string>)
    ensures r == Some("PDB_ID") <==> "PDB_ID" in StrippedHeaders(header)
    ensures r == Some("receptor_pdbqt") <==> "PDB_ID" !in StrippedHeaders(header) && "receptor_pdbqt" in StrippedHeaders(header)
    ensures r.None? <==> "PDB_ID" !in StrippedHeaders(header) && "receptor_pdbqt" !in StrippedHeaders(header)
  {
    var hs := StrippedHeaders(header);
    if "PDB_ID" in hs then Some("PDB_ID")
    else if "receptor_pdbqt" in hs then Some("receptor_pdbqt")
    else None
  }

  /** `row.get("TAG") or ""` */
  function RowTag(row: CsvRow): string
  {
    match Get(row, "TAG") case Some(t) => t case None => ""
  }

  /**
   * One row's entry: the stem of its path cell and its tag. `row[col]` raises
   * `KeyError` when only the stripped header has the column, and `Path(None)`
   * raises `TypeError` for a short record.
   */
  function RowEntry(row: CsvRow, col: string): Result<(string, string), string>
  {
    if col !in row then Err("KeyError")
    else match row[col]
      case None => Err("TypeError")
      case Some(p) => Ok((Stem(PathName(p)), RowTag(row)))
  }

  /** `RowEntry` for a fixed column, as a value. */
  function EntryOf(col: string): CsvRow -> Result<(string, string), string>
  {
    row => RowEntry(row, col)
  }

  /** Filling the dictionary in order: a later entry of the same stem overwrites an earlier one. */
  function MapOf(ps: seq<(string, string)>): map<string, string>
  {
    if ps == [] then map[] else MapOf(ps[..|ps| - 1])[ps[|ps| - 1].0 := ps[|ps| - 1].1]
  }

  lemma MapOfSnoc(ps: seq<(string, string)>, p: (string, string))
    ensures MapOf(ps + [p]) == MapOf(ps)[p.0 := p.1]
  {
    assert (ps + [p])[..|ps|] == ps;
  }

  /** The whole of `collect_receptor_tags` as a value. */
  function ReceptorTags(file: Option<CsvFile>): Result<map<string, string>, string>
  {
    match file
    case None => Ok(map[])
    case Some(f) =>
      match TagColumn(f.header)
      case None => Ok(map[])
      case Some(col) =>
        match TryMap(EntryOf(col), f.rows)
        case Err(e) => Err(e)
        case Ok(ps) => Ok(MapOf(ps))
  }

  method CollectReceptorTags(file: Option<CsvFile>) returns (r: Result<map<string, string>, string>)
    ensures r == ReceptorTags(file)
  {
    if file.None? {
      return Ok(map[]);
    }
    var f := file.value;
    var col := TagColumn(f.header);
    if col.None? {
      // every row is skipped by `continue`
      return Ok(map[]);
    }
    r := FillTags(EntryOf(col.value), f.rows);
  }

  /** The row loop: each row's entry stored in turn, the first failing row raising. */
  method FillTags(entry: CsvRow -> Result<(string, string), string>, rows: seq<CsvRow>) returns (r: Result<map<string, string>, string>)
    ensures r == (match TryMap(entry, rows) case Err(e) => Err(e) case Ok(ps) => Ok(MapOf(ps)))
  {
    var tags: map<string, string> := map[];
    ghost var ps: seq<(string, string)> := [];
    var i := 0;
    while i < |rows|
      invariant i <= |rows|
      invariant TryMap(entry, rows[..i]) == Ok(ps) && tags == MapOf(ps)
    {
      TryMapSnoc(entry, rows, i, ps);
      var e := entry(rows[i]);
      if e.Err? {
        TryMapErrExtends(entry, rows, i + 1);
        return Err(e.error);
      }
      MapOfSnoc(ps, e.value);
      ps := ps + [e.value];
      tags := tags[e.value.0 := e.value.1];
      i := i + 1;
    }
    assert rows[..i] == rows;
    r := Ok(tags);
  }

  /** The map has exactly the entries' stems as keys, and each maps to the tag of the last entry that has it. */
  lemma {:induction false} MapOfLastWins(ps: seq<(string, string)>)
    ensures forall s :: s in MapOf(ps) <==> exists j :: 0 <= j < |ps| && ps[j].0 == s
    ensures forall j :: 0 <= j < |ps| && (forall q :: j < q < |ps| ==> ps[q].0 != ps[j].0) ==> MapOf(ps)[ps[j].0] == ps[j].1
  {
    if ps != [] {
      var n := |ps| - 1;
      var init := ps[..n];
      MapOfLastWins(init);
      assert forall j :: 0 <= j < n ==> init[j] == ps[j];
      forall s ensures s in MapOf(ps) <==> exists j :: 0 <= j < |ps| && ps[j].0 == s {
        if s in MapOf(init) {
          var j :| 0 <= j < n && init[j].0 == s;
          assert ps[j].0 == s;
        }
      }
    }
  }

  /**
   * When every row reads cleanly, the map holds exactly the rows' stems, each
   * with the tag of the last row that has it (`entry` is `EntryOf(col)`).
   */
  lemma TagsLastWins(entry: CsvRow -> Result<(string, string), string>, rows: seq<CsvRow>)
    requires TryMap(entry, rows).Ok?
    ensures forall j :: 0 <= j < |rows| ==> entry(rows[j]).Ok?
    ensures var m := MapOf(TryMap(entry, rows).value);
      && (forall s :: s in m <==> exists j :: 0 <= j < |rows| && entry(rows[j]).value.0 == s)
      && forall j :: 0 <= j < |rows| && (forall q :: j < q < |rows| ==> entry(rows[q]).value.0 != entry(rows[j]).value.0) ==>
           m[entry(rows[j]).value.0] == entry(rows[j]).value.1
  {
    var ps := TryMap(entry, rows).value;
    MapOfLastWins(ps);
    TryMapAt(entry, rows);
  }

  /** Header padding: the stripped header names the column but the row is keyed by the padded name, so the read raises. */
  lemma PaddedHeaderRaises(p: string)
    ensures ReceptorTags(Some(CsvFile([" PDB_ID"], [map[" PDB_ID" := Some(p)]]))) == Err("KeyError")
  {
    var rows := [map[" PDB_ID" := Some(p)]];
    assert Strip(" PDB_ID") == "PDB_ID" by {
      assert " " + "PDB_ID" + "" == " PDB_ID";
      StripPadded(" ", "PDB_ID", "");
    }
    assert StrippedHeaders([" PDB_ID"]) == ["PDB_ID"];
    assert TagColumn([" PDB_ID"]) == Some("PDB_ID");
    assert "PDB_ID" !in rows[0];
    assert EntryOf("PDB_ID")(rows[0]) == Err("KeyError");
    assert rows[..0] == [];
    assert TryMap(EntryOf("PDB_ID"), rows[..0]) == Ok([]);
    assert TryMap(EntryOf("PDB_ID"), rows) == Err("KeyError");
  }
}
