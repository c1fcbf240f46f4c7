/**
 * The bookkeeping of 1_ConformerGeneration.py around the chemistry: which CSV
 * rows become conformer tasks, and how the `--folder` arguments become the
 * ordered list of folders to convert. RDKit's SMILES parser and
 * `Path.resolve()` are oracles passed in as functions; the directories that
 * exist are a set of path strings. Its `sanitize_id` is `Sanitize.SanitizeId`
 * and its 0-based `parse_index_list` is `IndexList.ParseIndexList` with base 0.
 */
module ConformerGeneration {
  import opened Wrappers
  import opened Text
  import opened Paths
  import opened Sorting
  import opened Sanitize

  // ---------- CSV rows to tasks ----------

  /** A `csv.DictReader` row: a column that is absent or empty reads as "". */
  type CsvRow = map<string, string>

  /** `(row.get(col) or "").strip()` */
  function Field(row: CsvRow, col: string): string
  {
    if col in row then Strip(row[col]) else ""
  }

  /** A molecule to embed: its sanitised id and the SMILES text RDKit accepted. */
  datatype Task = Task(ligandId: string, smiles: string)

  /** The task one row contributes, if any; `parses` is `Chem.MolFromSmiles(smiles)` succeeding. */
  function RowTask(row: CsvRow, smiCol: string, idCol: string, parses: string -> bool): Option<Task>
  {
    var smiles := Field(row, smiCol);
    var ligandId := SanitizeId(Some(Field(row, idCol)));
    if smiles == "" || ligandId == "" then None
    else if parses(smiles) then Some(Task(ligandId, smiles))
    else None
  }

  /** The tasks of all rows, in file order. */
  function CsvTasks(rows: seq<CsvRow>, smiCol: string, idCol: string, parses: string -> bool): seq<Task>
  {
    FilterMap(row => RowTask(row, smiCol, idCol, parses), rows)
  }

  /**
   * The `not ligand_id` test never fires, since `sanitize_id` never returns
   * "": a row is skipped exactly when its SMILES cell is blank or rejected,
   * and a kept row's id is a clean tag made from its id cell.
   */
  lemma RowTaskExactly(row: CsvRow, smiCol: string, idCol: string, parses: string -> bool)
    ensures RowTask(row, smiCol, idCol, parses).None? <==> Field(row, smiCol) == "" || !parses(Field(row, smiCol))
    ensures RowTask(row, smiCol, idCol, parses).Some? ==>
      var t := RowTask(row, smiCol, idCol, parses).value;
      t.smiles == Field(row, smiCol) && t.ligandId == SanitizeId(Some(Field(row, idCol))) && IsCleanTag(t.ligandId)
  {
  }

  /** A row whose id cell is missing still gives a task, named "ligand". */
  lemma MissingIdIsLigand(row: CsvRow, smiCol: string, idCol: string, parses: string -> bool)
    requires idCol !in row && Field(row, smiCol) != "" && parses(Field(row, smiCol))
    ensures RowTask(row, smiCol, idCol, parses) == Some(Task("ligand", Field(row, smiCol)))
  {
    SanitizeIdMissing();
  }

  /** A task is collected exactly when some row gives it. */
  lemma CsvTasksFrom(rows: seq<CsvRow>, smiCol: string, idCol: string, parses: string -> bool, t: Task)
    ensures t in CsvTasks(rows, smiCol, idCol, parses) <==>
      exists i :: 0 <= i < |rows| && RowTask(rows[i], smiCol, idCol, parses) == Some(t)
  {
    FilterMapFrom(row => RowTask(row, smiCol, idCol, parses), rows, t);
  }

  /**
   * Mode 1 with `--smiles-col` and `--id-col` given: a CSV without a header
   * exits with 1, a CSV giving no task exits with 2, otherwise the tasks in
   * row order.
   */
  method CollectTasks(headers: seq<string>, rows: seq<CsvRow>, smiCol: string, idCol: string, parses: string -> bool)
    returns (r: Result<seq<Task>, int>)
    ensures headers == [] <==> r == Err(1)
    ensures r == Err(2) <==> headers != [] && CsvTasks(rows, smiCol, idCol, parses) == []
    ensures r.Ok? <==> headers != [] && CsvTasks(rows, smiCol, idCol, parses) != []
    ensures r.Ok? ==> r.value == CsvTasks(rows, smiCol, idCol, parses)
  {
    if headers == [] {
      return Err(1);
    }
    var tasks: seq<Task> := [];
    var f := row => RowTask(row, smiCol, idCol, parses);
    var i := 0;
    while i < |rows|
      invariant i <= |rows| && tasks == FilterMap(f, rows[..i])
    {
      FilterMapSnoc(f, rows, i);
      var t := f(rows[i]);
      if t.Some? {
        tasks := tasks + [t.value];
      }
      i := i + 1;
    }
    assert rows[..i] == rows;
    if tasks == [] {
      return Err(2);
    }
    return Ok(tasks);
  }

  // ---------- `--folder` tokens ----------

  /** Drops whitespace on the left when `left`, on the right when `right`. */
  function Trim(s: string, left: bool, right: bool): string
  {
    var l := if left then LStripSet(s, Whitespace) else s;
    if right then RStripSet(l, Whitespace) else l
  }

  /**
   * `re.split(r"\s*,\s*", tok)`: the pieces between commas, each comma taking
   * the whole run of blanks on either side of it. Blanks at the very ends of
   * `tok` stay.
   */
  function CommaSplit(tok: string): (r: seq<string>)
    ensures |r| == |Split(tok, ',')|
  {
    var ps := Split(tok, ',');
    seq(|ps|, i requires 0 <= i < |ps| => Trim(ps[i], i > 0, i < |ps| - 1))
  }

  /** The filter `if t`: an empty piece is dropped. */
  function NonEmpty(t: string): Option<string>
  {
    if t == "" then None else Some(t)
  }

  /** `[t for t in re.split(...) if t]` */
  function FolderTokens(tok: string): seq<string>
  {
    FilterMap(NonEmpty, CommaSplit(tok))
  }

  /** `raw.extend(...)` for each `--folder` argument. */
  function RawFolders(args: seq<string>): seq<string>
  {
    if args == [] then [] else RawFolders(args[..|args| - 1]) + FolderTokens(args[|args| - 1])
  }

  /** Trimming adds no character, so a comma-free piece stays comma-free. */
  lemma TrimKeeps(s: string, left: bool, right: bool)
    ensures forall c :: c in Trim(s, left, right) ==> c in s
  {
    var l := if left then LStripSet(s, Whitespace) else s;
    assert forall c :: c in l ==> c in s;
    assert forall c :: c in Trim(s, left, right) ==> c in l;
  }

  /** Every folder token is nonempty and holds no comma. */
  lemma FolderTokensShape(tok: string)
    ensures forall i :: 0 <= i < |FolderTokens(tok)| ==>
      FolderTokens(tok)[i] != "" && ',' !in FolderTokens(tok)[i]
  {
    var ps := CommaSplit(tok);
    forall i | 0 <= i < |FolderTokens(tok)|
      ensures FolderTokens(tok)[i] != "" && ',' !in FolderTokens(tok)[i]
    {
      var x := FolderTokens(tok)[i];
      FilterMapFrom(NonEmpty, ps, x);
      var j :| 0 <= j < |ps| && NonEmpty(ps[j]) == Some(x);
      TrimKeeps(Split(tok, ',')[j], j > 0, j < |ps| - 1);
    }
  }

  /** `" " + p` for each piece. */
  function Spaced(names: seq<string>): (r: seq<string>)
    ensures |r| == |names| && forall i :: 0 <= i < |names| ==> r[i] == " " + names[i]
  {
    seq(|names|, i requires 0 <= i < |names| => " " + names[i])
  }

  lemma {:induction false} JoinSpaced(names: seq<string>)
    requires names != []
    ensures " " + Join(names, ", ") == Join(Spaced(names), ",")
  {
    if |names| > 1 {
      JoinSpaced(names[1..]);
      assert Spaced(names)[1..] == Spaced(names[1..]);
    }
  }

  /** A name with no blank at either end. */
  predicate Trimmed(s: string)
  {
    s != [] && !IsSpace(s[0]) && !IsSpace(s[|s| - 1])
  }

  lemma TrimTrimmed(pre: string, s: string, left: bool, right: bool)
    requires Trimmed(s)
    requires forall i :: 0 <= i < |pre| ==> IsSpace(pre[i])
    requires left || pre == ""
    ensures Trim(pre + s, left, right) == s
  {
    if left {
      LStripPrefix(pre, s, Whitespace);
    } else {
      assert pre + s == s;
    }
    if right {
      RStripSuffix(s, "", Whitespace);
      assert s + "" == s;
    }
  }

  /**
   * Round trip: folder names without commas or outer blanks, written as one
   * `"a, b, c"` argument, are read back as those names.
   */
  lemma FolderTokensOfList(names: seq<string>)
    requires names != []
    requires forall i :: 0 <= i < |names| ==> Trimmed(names[i]) && ',' !in names[i]
    ensures FolderTokens(Join(names, ", ")) == names
  {
    CommaSplitOfList(names);
    NoEmptyKept(names);
  }

  /** The pieces `", "` joins, seen as a join on `","`: every piece but the first gains a blank. */
  function Pieces(names: seq<string>): (r: seq<string>)
    requires names != []
    ensures |r| == |names| && r[0] == names[0]
    ensures forall i :: 1 <= i < |names| ==> r[i] == " " + names[i]
  {
    [names[0]] + Spaced(names[1..])
  }

  lemma JoinPieces(names: seq<string>)
    requires names != []
    ensures Join(names, ", ") == Join(Pieces(names), ",")
  {
    if |names| > 1 {
      JoinSpaced(names[1..]);
      assert Pieces(names)[1..] == Spaced(names[1..]);
    }
  }

  lemma SplitPieces(names: seq<string>)
    requires names != []
    requires forall i :: 0 <= i < |names| ==> ',' !in names[i]
    ensures Split(Join(names, ", "), ',') == Pieces(names)
  {
    var pieces := Pieces(names);
    JoinPieces(names);
    forall i | 0 <= i < |pieces| ensures ',' !in pieces[i] {
      assert i > 0 ==> pieces[i] == " " + names[i];
    }
    SplitJoin(pieces, ',');
  }

  lemma CommaSplitOfList(names: seq<string>)
    requires names != []
    requires forall i :: 0 <= i < |names| ==> Trimmed(names[i]) && ',' !in names[i]
    ensures CommaSplit(Join(names, ", ")) == names
  {
    var tok := Join(names, ", ");
    SplitPieces(names);
    var ps := CommaSplit(tok);
    forall i | 0 <= i < |names| ensures ps[i] == names[i] {
      CommaSplitAt(tok, Pieces(names), i);
      PieceTrimmed(names, i);
    }
  }

  lemma CommaSplitAt(tok: string, pieces: seq<string>, i: nat)
    requires Split(tok, ',') == pieces && i < |pieces|
    ensures CommaSplit(tok)[i] == Trim(pieces[i], i > 0, i < |pieces| - 1)
  {
  }

  lemma PieceTrimmed(names: seq<string>, i: nat)
    requires i < |names| && Trimmed(names[i])
    ensures Trim(Pieces(names)[i], i > 0, i < |names| - 1) == names[i]
  {
    if i == 0 {
      TrimTrimmed("", names[0], false, 0 < |names| - 1);
      assert "" + names[0] == names[0];
    } else {
      assert IsSpace(' ');
      TrimTrimmed(" ", names[i], true, i < |names| - 1);
    }
  }

  /** Filtering out empty pieces keeps a list of nonempty ones. */
  lemma {:induction false} NoEmptyKept(names: seq<string>)
    requires forall i :: 0 <= i < |names| ==> names[i] != ""
    ensures FilterMap(NonEmpty, names) == names
  {
    if names != [] {
      NoEmptyKept(names[..|names| - 1]);
    }
  }

  // ---------- resolving and ordering the folders ----------

  /** `sorted(folders, key=lambda p: p.name.lower())` compares these. */
  predicate FolderLe(a: string, b: string)
  {
    LexLe(FolderKey(a), FolderKey(b))
  }

  /** `p.name.lower()` */
  function FolderKey(p: string): string
  {
    Lower(PathName(p))
  }

  lemma NameLeTotal(a: string, b: string)
    ensures LexLe(a, b) || LexLe(b, a)
  {
    if a != b {
      LexLtTotal(a, b);
    }
  }

  lemma NameLeTransitive(a: string, b: string, c: string)
    requires LexLe(a, b) && LexLe(b, c)
    ensures LexLe(a, c)
  {
    if a != b && b != c {
      LexLtTransitive(a, b, c);
    }
  }

  lemma FolderLeTotalPreorder()
    ensures TotalPreorder(FolderLe)
  {
    forall a: string, b: string ensures FolderLe(a, b) || FolderLe(b, a) {
      NameLeTotal(FolderKey(a), FolderKey(b));
    }
    forall a: string, b: string, c: string | FolderLe(a, b) && FolderLe(b, c) ensures FolderLe(a, c) {
      NameLeTransitive(FolderKey(a), FolderKey(b), FolderKey(c));
    }
  }

  /** `[p.resolve() for p in raw]` */
  function Resolved(raw: seq<string>, resolve: string -> string): (r: seq<string>)
    ensures |r| == |raw| && forall i :: 0 <= i < |raw| ==> r[i] == resolve(raw[i])
  {
    seq(|raw|, i requires 0 <= i < |raw| => resolve(raw[i]))
  }

  /**
   * Mode 2 with `--folder`: every token must name an existing directory
   * (exit 1 at the first that does not); the resolved folders are then
   * stably sorted by lower-cased name.
   */
  method ResolveFolders(args: seq<string>, dirs: set<string>, resolve: string -> string)
    returns (r: Result<seq<string>, int>)
    ensures r.Err? <==> exists t :: t in RawFolders(args) && t !in dirs
    ensures r.Err? ==> r.error == 1
    ensures r.Ok? ==> r.value == SortBy(Resolved(RawFolders(args), resolve), FolderLe)
  {
    var raw := SplitFolderArgs(args);
    var folders := ResolveEach(raw, dirs, resolve);
    if folders.Err? {
      return folders;
    }
    return Ok(SortBy(folders.value, FolderLe));
  }

  /** The loop resolving each token, stopping at the first that is not a directory. */
  method ResolveEach(raw: seq<string>, dirs: set<string>, resolve: string -> string)
    returns (r: Result<seq<string>, int>)
    ensures r.Err? <==> exists t :: t in raw && t !in dirs
    ensures r.Err? ==> r.error == 1
    ensures r.Ok? ==> r.value == Resolved(raw, resolve)
  {
    var folders: seq<string> := [];
    var i := 0;
    while i < |raw|
      invariant i <= |raw| && |folders| == i
      invariant forall k :: 0 <= k < i ==> folders[k] == resolve(raw[k]) && raw[k] in dirs
    {
      if raw[i] !in dirs {
        return Err(1);
      }
      folders := folders + [resolve(raw[i])];
      i := i + 1;
    }
    assert forall t :: t in raw ==> t in dirs;
    return Ok(folders);
  }

  /** The loop gathering `raw` from the `--folder` arguments. */
  method SplitFolderArgs(args: seq<string>) returns (raw: seq<string>)
    ensures raw == RawFolders(args)
  {
    raw := [];
    var a := 0;
    while a < |args|
      invariant a <= |args| && raw == RawFolders(args[..a])
    {
      assert args[..a + 1][..a] == args[..a];
      raw := raw + FolderTokens(args[a]);
      a := a + 1;
    }
    assert args[..a] == args;
  }

  /**
   * The folder list: the resolved folders, each as often as named, with
   * lower-cased names ascending; folders whose names compare equal keep
   * their command-line order.
   */
  lemma ResolvedFoldersOrdered(raw: seq<string>, resolve: string -> string)
    ensures var out := SortBy(Resolved(raw, resolve), FolderLe);
      && multiset(out) == multiset(Resolved(raw, resolve))
      && (forall i, j :: 0 <= i < j < |out| ==> LexLe(FolderKey(out[i]), FolderKey(out[j])))
      && (forall c :: SameKey(out, FolderLe, c) == SameKey(Resolved(raw, resolve), FolderLe, c))
  {
    FolderLeTotalPreorder();
    var s := Resolved(raw, resolve);
    SortBySorted(s, FolderLe);
    forall c ensures SameKey(SortBy(s, FolderLe), FolderLe, c) == SameKey(s, FolderLe, c) {
      SortByStable(s, FolderLe, c);
    }
  }

  /** `(args.filetype or "sdf").lower()` */
  function FileType(arg: Option<string>): (ft: string)
    ensures arg.None? || arg == Some("") ==> ft == "sdf"
    ensures arg.Some? && arg.value != "" ==> ft == Lower(arg.value)
  {
    Lower(if arg.None? || arg.value == "" then "sdf" else arg.value)
  }

  /**
   * The folder mode's file type check: the lower-cased type must be `sdf` or
   * `smiles`, otherwise the run stops with exit status 1. A missing type is
   * `sdf`, and the check ignores case.
   */
  function CheckFileType(arg: Option<string>): (r: Result<string, int>)
    ensures r.Ok? <==> arg.None? || arg.value == "" || Lower(arg.value) == "sdf" || Lower(arg.value) == "smiles"
    ensures r.Err? ==> r.error == 1
    ensures r.Ok? ==> (r.value == "sdf" || r.value == "smiles")
    ensures arg.None? || arg.value == "" ==> r == Ok("sdf")
  {
    var ft := FileType(arg);
    if ft != "sdf" && ft != "smiles" then Err(1) else Ok(ft)
  }
}
