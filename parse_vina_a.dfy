/**
 * 4A_Parse_VinaResults.py: collects pose files under the chosen scope
 * directories (every `*.pdbqt`, or every file with one exact name), parses
 * each one all-or-nothing, builds 5- or 6-column rows named after the file's
 * directories, and counts processed files and hits while draining the pool.
 *
 * As written, the script stops with an AttributeError before its final sort
 * (`args.no-sort` reads `args.no`); the sort and its key are modelled as the
 * evidently intended continuation.
 */
module ParseVinaA {
  import opened Wrappers
  import opened Text
  import opened Paths
  import opened Sorting
  import opened Completion
  import opened VinaResults
  import opened ResultsTree

  // ---------- parse_vina_pdbqt ----------

  /**
   * This copy returns `[]` on any exception: the poses of a file read to the
   * end, or nothing.
   */
  method ParsePoses(read: FileRead) returns (poses: seq<Pose>)
    ensures read.raised ==> poses == []
    ensures !read.raised ==> poses == Poses(read.lines)
  {
    poses := CollectPoses(read.lines);
    if read.raised {
      poses := [];
    }
  }

  /** The poses the all-or-nothing copy returns, as a function of the read. */
  function AllOrNothing(read: FileRead): seq<Pose>
  {
    if read.raised then [] else Poses(read.lines)
  }

  /**
   * Compared with the copy in 4B_Parse_VinaResults.py, which keeps the poses
   * read before an exception: the two agree on a file read to the end, and
   * this one otherwise returns nothing.
   */
  lemma AllOrNothingVsPartial(read: FileRead)
    ensures !read.raised ==> AllOrNothing(read) == Poses(read.lines)
    ensures read.raised ==> AllOrNothing(read) == [] && |AllOrNothing(read)| <= |Poses(read.lines)|
    ensures AllOrNothing(read) == Poses(read.lines)[..|AllOrNothing(read)|]
  {
  }

  // ---------- guess_ligand_name ----------

  /** `s[:-len(suf)]` when `s.endswith(suf)`. */
  function DropSuffix(s: string, suf: string): (r: string)
    ensures EndsWith(s, suf) ==> r + suf == s
    ensures !EndsWith(s, suf) ==> r == s
  {
    if EndsWith(s, suf) then s[..|s| - |suf|] else s
  }

  /** The number of digits at the end of `s`. */
  function TrailingDigits(s: string): (n: nat)
    ensures n <= |s| && AllDigits(s[|s| - n..])
    ensures n < |s| ==> !IsDigit(s[|s| - n - 1])
  {
    if s == [] || !IsDigit(s[|s| - 1]) then 0
    else
      var t := s[..|s| - 1];
      var n := TrailingDigits(t);
      assert s == t + [s[|s| - 1]];
      DigitRunSnoc(t, n, s[|s| - 1]);
      n + 1
  }

  /** A digit appended to a string ending in `n` digits gives one ending in `n + 1`. */
  lemma DigitRunSnoc(t: string, n: nat, c: char)
    requires n <= |t| && AllDigits(t[|t| - n..]) && IsDigit(c)
    ensures AllDigits((t + [c])[|t| - n..])
  {
    assert (t + [c])[|t| - n..] == t[|t| - n..] + [c];
  }

  /**
   * `re.match(r"(.+?)_pose\d+$", stem)`: the digits reach the end, so they
   * are the trailing digit run; the group is what precedes `_pose` and must be
   * nonempty. On a match the stem becomes the group.
   */
  function DropPose(s: string): (r: string)
    ensures r != s ==> r != [] && exists d :: IsDigits(d) && s == r + "_pose" + d
  {
    var d := TrailingDigits(s);
    if d >= 1 && |s| - d >= 6 && s[|s| - d - 5..|s| - d] == "_pose" then
      assert s == s[..|s| - d - 5] + "_pose" + s[|s| - d..];
      s[..|s| - d - 5]
    else s
  }

  /**
   * `guess_ligand_name(p)`: the stem without `_out`, `_OUT`, `-out` (each once,
   * in order) and one `_pose<digits>`. `work` replaces the guess with the
   * parent folder's name right after, so no row carries it.
   */
  function GuessLigandName(name: string): string
  {
    DropPose(DropSuffix(DropSuffix(DropSuffix(Stem(name), "_out"), "_OUT"), "-out"))
  }

  /** A stem `g_pose<digits>` with a nonempty `g` loses exactly `_pose<digits>`. */
  lemma DropPoseOf(g: string, digits: string)
    requires g != [] && IsDigits(digits)
    ensures DropPose(g + "_pose" + digits) == g
  {
    var s := g + "_pose" + digits;
    var d := TrailingDigits(s);
    TrailingDigitsOf(g + "_pose", digits);
    assert s[..|s| - d - 5] == g;
    assert s[|s| - d - 5..|s| - d] == "_pose";
  }

  lemma {:induction false} TrailingDigitsOf(a: string, digits: string)
    requires a != [] && !IsDigit(a[|a| - 1]) && AllDigits(digits)
    ensures TrailingDigits(a + digits) == |digits|
    decreases |digits|
  {
    var s := a + digits;
    if digits == [] {
      assert s == a;
    } else {
      var k := |digits| - 1;
      assert s[..|s| - 1] == a + digits[..k];
      assert s[|s| - 1] == digits[k];
      TrailingDigitsOf(a, digits[..k]);
    }
  }

  /**
   * The names Vina's split output gets: `<ligand>_pose<k>` plus an optional
   * `_out`, `_OUT` or `-out`, with any extension. The guess recovers the ligand.
   */
  lemma GuessRecoversLigand(lig: string, digits: string, tag: string, ext: string)
    requires lig != [] && IsDigits(digits) && tag in ["", "_out", "_OUT", "-out"]
    requires '.' !in lig && '.' !in digits && ext != [] && '.' !in ext
    ensures GuessLigandName(lig + "_pose" + digits + tag + "." + ext) == lig
  {
    var base := lig + "_pose" + digits;
    assert '.' !in base + tag by {
      assert forall c :: c in base + tag ==> c in lig || c in "_pose" || c in digits || c in tag;
    }
    StemOfSuffixed(base + tag, ext);
    assert IsDigit(base[|base| - 1]) by {
      assert base[|base| - 1] == digits[|digits| - 1];
    }
    DropTags(base, tag);
    DropPoseOf(lig, digits);
  }

  /** A name ending in a digit, with one of the three tags appended, loses exactly the tag. */
  lemma DropTags(base: string, tag: string)
    requires base != [] && IsDigit(base[|base| - 1]) && tag in ["", "_out", "_OUT", "-out"]
    ensures DropSuffix(DropSuffix(DropSuffix(base + tag, "_out"), "_OUT"), "-out") == base
  {
    NoTag(base);
    var s := base + tag;
    if tag != "" {
      assert s[..|s| - 4] == base;
      assert s[|s| - 4..] == tag;
    } else {
      assert s == base;
    }
  }

  lemma NoTag(base: string)
    requires base != [] && IsDigit(base[|base| - 1])
    ensures !EndsWith(base, "_out") && !EndsWith(base, "_OUT") && !EndsWith(base, "-out")
  {
    if |base| >= 4 {
      assert base[|base| - 4..][3] == base[|base| - 1];
    }
  }

  // ---------- discovery ----------

  /**
   * Target collection: `rglob("*.pdbqt")` over each scope when the name is
   * that pattern (hidden entries and matching directories included), an
   * exact-name walk pruning hidden directories otherwise; no target exits 2.
   */
  function CollectTargets(scopes: seq<Scope>, name: string): (r: Result<seq<Found>, int>)
    ensures r.Err? ==> r.error == 2
    ensures r.Ok? ==> r.value != []
    ensures name == "*.pdbqt" ==> (r.Ok? <==> FindScopes(scopes, GlobSuffix(".pdbqt")) != [])
    ensures name != "*.pdbqt" ==> (r.Ok? <==> FindScopes(scopes, WalkFor(name)) != [])
  {
    var targets := if name == "*.pdbqt" then FindScopes(scopes, GlobSuffix(".pdbqt")) else FindScopes(scopes, WalkFor(name));
    if targets == [] then Err(2) else Ok(targets)
  }

  /** Every entry a discovery search locates below a scope is a target. */
  lemma CollectTargetsExactly(scopes: seq<Scope>, name: string, i: nat, rel: seq<string>, x: string)
    requires i < |scopes| && CollectTargets(scopes, name).Ok?
    ensures var s := if name == "*.pdbqt" then GlobSuffix(".pdbqt") else WalkFor(name);
      Located(scopes[i].tree, rel, x, s) ==> Found(scopes[i].dir + rel, x) in CollectTargets(scopes, name).value
  {
    var s := if name == "*.pdbqt" then GlobSuffix(".pdbqt") else WalkFor(name);
    if Located(scopes[i].tree, rel, x, s) {
      FindScopesComplete(scopes, s, i, rel, x);
    }
  }

  /** Every target is an entry located below one of the scopes. */
  lemma CollectTargetsSound(scopes: seq<Scope>, name: string, f: Found)
    requires CollectTargets(scopes, name).Ok? && f in CollectTargets(scopes, name).value
    ensures var s := if name == "*.pdbqt" then GlobSuffix(".pdbqt") else WalkFor(name);
      exists i :: 0 <= i < |scopes| && |scopes[i].dir| <= |f.dir| && f.dir[..|scopes[i].dir|] == scopes[i].dir
                  && Located(scopes[i].tree, f.dir[|scopes[i].dir|..], f.file, s)
  {
    var s := if name == "*.pdbqt" then GlobSuffix(".pdbqt") else WalkFor(name);
    var i := FindScopesSound(scopes, s, f);
  }

  // ---------- work ----------

  /** A row: `(receptor, ligand, pose_idx, aff, relpath)` plus the run timestamp unless `--fast`. */
  datatype Row = Row(receptor: string, ligand: string, pose: nat, affinity: real, outFile: string, stamp: Option<string>)

  /** The header written for the LIVE and final CSVs. */
  function Header(fast: bool): (h: seq<string>)
    ensures |h| == if fast then 5 else 6
  {
    ["Receptor", "Ligand", "Pose", "Binding_Affinity", "OutFile"] + (if fast then [] else ["Run_Timestamp"])
  }

  function RowWidth(r: Row): nat
  {
    5 + (if r.stamp.Some? then 1 else 0)
  }

  /** `str(p.relative_to(results_dir))` for a target under `results_dir`. */
  function RelPath(resultsDir: seq<string>, f: Found): string
  {
    if |resultsDir| <= |f.dir| && f.dir[..|resultsDir|] == resultsDir then Join(f.dir[|resultsDir|..] + [f.file], "/")
    else FoundPath(f)
  }

  /** What one `work(p)` call reads besides `p`: the pose files, `--fast`, the results root and the run timestamp. */
  datatype Context = Context(files: map<string, FileRead>, fast: bool, resultsDir: seq<string>, stamp: string)

  predicate NamesReceptor(f: Found)
  {
    Contains(Lower(f.file), "receptor")
  }

  /**
   * `work(p)`: nothing for a name containing "receptor" in any case; otherwise
   * receptor = grandparent directory name and ligand = parent directory name,
   * one row per pose of the all-or-nothing parse, and a hit iff there is one.
   */
  function Work(f: Found, ctx: Context): (r: (seq<Row>, bool))
    ensures NamesReceptor(f) ==> r == ([], false)
    ensures r.1 <==> r.0 != []
    ensures forall k :: 0 <= k < |r.0| ==>
      && r.0[k].receptor == GrandparentName(f) && r.0[k].ligand == ParentName(f) && r.0[k].pose == k + 1
      && RowWidth(r.0[k]) == |Header(ctx.fast)|
    ensures !NamesReceptor(f) ==> |r.0| == |AllOrNothing(ReadOf(f, ctx))|
    ensures !NamesReceptor(f) ==> var poses := AllOrNothing(ReadOf(f, ctx));
      forall k :: 0 <= k < |r.0| ==>
        && r.0[k].affinity == DecimalValue(poses[k].affinity)
        && r.0[k].outFile == RelPath(ctx.resultsDir, f)
        && r.0[k].stamp == (if ctx.fast then None else Some(ctx.stamp))
  {
    if NamesReceptor(f) then ([], false)
    else
      var poses := AllOrNothing(ReadOf(f, ctx));
      var stamp := if ctx.fast then None else Some(ctx.stamp);
      var rows := seq(|poses|, k requires 0 <= k < |poses| =>
        Row(GrandparentName(f), ParentName(f), poses[k].index, DecimalValue(poses[k].affinity), RelPath(ctx.resultsDir, f), stamp));
      (rows, poses != [])
  }

  /** What opening the target gives: its lines, or an exception when it is not a readable file. */
  function ReadOf(f: Found, ctx: Context): FileRead
  {
    if FoundPath(f) in ctx.files then ctx.files[FoundPath(f)] else FileRead([], true)
  }

  // ---------- the drain loop ----------

  /** `work` with the run's context fixed, as submitted to the pool. */
  function Worker(ctx: Context): Found -> (seq<Row>, bool)
  {
    f => Work(f, ctx)
  }

  function Abs(x: int): nat { if x < 0 then -x else x }

  /** The counters after draining. */
  datatype Progress = Progress(processed: nat, hits: nat, rows: seq<Row>, beats: seq<nat>)

  /**
   * The `as_completed` loop: `rows_buffer` gathers rows in completion order,
   * `processed` counts every target, `hits` those with poses, and with `--log`
   * a heartbeat fires when `processed % heartbeat == 0`; a heartbeat of 0 then
   * raises ZeroDivisionError at the first completed target.
   */
  method Drain(targets: seq<Found>, ctx: Context, order: seq<nat>, log: bool, heartbeat: int)
    returns (r: Result<Progress, string>)
    requires IsOrdering(order, |targets|) && targets != []
    ensures log && heartbeat == 0 <==> r == Err("ZeroDivisionError")
    ensures r.Ok? ==>
      && r.value.processed == |targets| && r.value.hits <= r.value.processed
      && r.value.hits == |Marked(HitsOf(targets, Worker(ctx)))|
      && r.value.rows == Gathered(RowsOf(targets, Worker(ctx)), order)
      && r.value.beats == (if log then Heartbeats(|targets|, Abs(heartbeat)) else [])
  {
    r := DrainResults(RowsOf(targets, Worker(ctx)), HitsOf(targets, Worker(ctx)), order, log, heartbeat);
  }

  /** The loop itself, over each future's result: its rows and whether it had poses. */
  method DrainResults(parts: seq<seq<Row>>, flags: seq<bool>, order: seq<nat>, log: bool, heartbeat: int)
    returns (r: Result<Progress, string>)
    requires |parts| == |flags| && IsOrdering(order, |flags|) && flags != []
    ensures log && heartbeat == 0 <==> r == Err("ZeroDivisionError")
    ensures r.Ok? ==>
      && r.value.processed == |flags| && r.value.hits <= r.value.processed
      && r.value.hits == |Marked(flags)|
      && r.value.rows == Gathered(parts, order)
      && r.value.beats == (if log then Heartbeats(|flags|, Abs(heartbeat)) else [])
  {
    var processed, hits, rows, beats := 0, 0, [], [];
    while processed < |order|
      invariant processed <= |order| && hits <= processed
      invariant hits == |Among(flags, order[..processed])|
      invariant rows == Gathered(parts, order[..processed])
      invariant !log ==> beats == []
      invariant log && heartbeat != 0 ==> beats == Heartbeats(processed, Abs(heartbeat))
      invariant log && heartbeat == 0 ==> processed == 0
    {
      var idx := order[processed];
      var rowsOf, hit := parts[idx], flags[idx];
      if rowsOf != [] {
        rows := rows + rowsOf;
      }
      AmongStep(flags, order, processed);
      GatheredStep(parts, order, processed);
      processed := processed + 1;
      if hit {
        hits := hits + 1;
      }
      if log {
        if heartbeat == 0 {
          return Err("ZeroDivisionError");
        }
        // Python's `%` and Dafny's differ for a negative divisor but agree on a zero remainder.
        if processed % Abs(heartbeat) == 0 {
          beats := beats + [processed];
        }
      }
    }
    assert order[..processed] == order;
    AmongAll(flags, order);
    r := Ok(Progress(processed, hits, rows, beats));
  }

  // ---------- the end of main ----------

  /** How the run ends: the sorted table, or the exception that stops it. */
  datatype Ending = Sorted(table: seq<Row>) | Unsorted | Raised(name: string)

  /** A long option as declared: `--<name>`, or `--<first>-<second>`. */
  datatype LongOption = Plain(name: string) | Dashed(first: string, second: string)

  /** The option string passed to `add_argument`. */
  function Spelling(o: LongOption): string
  {
    match o
    case Plain(n) => "--" + n
    case Dashed(a, b) => "--" + a + "-" + b
  }

  /** Its words hold no dash, and the first word is not empty. */
  predicate WellSpelled(o: LongOption)
  {
    match o
    case Plain(n) => n != [] && '-' !in n
    case Dashed(a, b) => a != [] && '-' !in a && '-' !in b
  }

  /** The long options `main` declares, in declaration order. */
  const Options: seq<LongOption> := [Plain("fast"), Plain("workers"), Plain("live"), Plain("log"),
                                     Plain("heartbeat"), Plain("name"), Dashed("no", "sort")]

  /** argparse's default `dest` for a long option string: leading dashes dropped, inner dashes turned into `_`. */
  function Dest(option: string): string
  {
    ReplaceAll(LStripSet(option, {'-'}), "-", "_")
  }

  /** The words of the option joined by `_`. */
  function WordsJoined(o: LongOption): string
  {
    match o
    case Plain(n) => n
    case Dashed(a, b) => a + "_" + b
  }

  /** The attribute names of the parsed namespace: each declared option's words joined by `_`. */
  function Namespace(options: seq<LongOption>): set<string>
  {
    set o | o in options :: WordsJoined(o)
  }

  /** Both leading dashes of `--<w>` are dropped when `w` does not start with one. */
  lemma LStripDashes(w: string)
    requires w != [] && w[0] != '-'
    ensures LStripSet("--" + w, {'-'}) == w
  {
    assert ("--" + w)[1..] == "-" + w;
    assert ("-" + w)[1..] == w;
  }

  /** `--<w>` is stored as `w` when `w` holds no dash. */
  lemma DestOfPlain(w: string)
    requires w != [] && '-' !in w
    ensures Dest("--" + w) == w
  {
    assert w[0] in w;
    LStripDashes(w);
    ReplaceAfterClean(w, [], "-", "_");
    assert w + [] == w;
  }

  /** `--<a>-<b>` is stored as `<a>_<b>` when neither word holds a dash. */
  lemma DestOfDashed(a: string, b: string)
    requires a != [] && '-' !in a && '-' !in b
    ensures Dest("--" + a + "-" + b) == a + "_" + b
  {
    assert a[0] in a;
    var w := a + ("-" + b);
    assert "--" + a + "-" + b == "--" + w;
    LStripDashes(w);
    ReplaceAfterClean(a, "-" + b, "-", "_");
    ReplaceDashFirst(b);
    assert a + ("_" + b) == a + "_" + b;
  }

  /** The leading dash of `-<b>` becomes `_` and the dash-free rest is kept. */
  lemma ReplaceDashFirst(b: string)
    requires '-' !in b
    ensures ReplaceAll("-" + b, "-", "_") == "_" + b
  {
    assert ("-" + b)[..1] == "-" && ("-" + b)[1..] == b;
    ReplaceAfterClean(b, [], "-", "_");
    assert b + [] == b;
  }

  /**
   * argparse stores a well-spelled option under its words joined by `_`:
   * `--fast` as `fast`, `--no-sort` as `no_sort`.
   */
  lemma DestOfOption(o: LongOption)
    requires WellSpelled(o)
    ensures Dest(Spelling(o)) == WordsJoined(o)
  {
    match o
    case Plain(w) => DestOfPlain(w);
    case Dashed(a, b) => DestOfDashed(a, b);
  }

  /** For well-spelled options the namespace is exactly what argparse's dest rule gives. */
  lemma NamespaceIsDests(options: seq<LongOption>)
    requires forall o :: o in options ==> WellSpelled(o)
    ensures Namespace(options) == set o | o in options :: Dest(Spelling(o))
  {
    forall o | o in options
      ensures Dest(Spelling(o)) == WordsJoined(o)
    {
      DestOfOption(o);
    }
  }

  /** The namespace holds exactly `fast`, `workers`, `live`, `log`, `heartbeat`, `name` and `no_sort`. */
  lemma NamespaceNames()
    ensures Namespace(Options) == {"fast", "workers", "live", "log", "heartbeat", "name", "no_sort"}
  {
    var names := {"fast", "workers", "live", "log", "heartbeat", "name", "no_sort"};
    forall x | x in Namespace(Options)
      ensures x in names
    {
      var o :| o in Options && x == WordsJoined(o);
      var i :| 0 <= i < |Options| && Options[i] == o;
      JoinedAt(i);
    }
    forall i | 0 <= i < |Options|
      ensures WordsJoined(Options[i]) in Namespace(Options)
    {
    }
    JoinedAt(0); JoinedAt(1); JoinedAt(2); JoinedAt(3); JoinedAt(4); JoinedAt(5); JoinedAt(6);
  }

  /** The declared options are spelled as in `main`. */
  lemma OptionsAsDeclared()
    ensures forall i :: 0 <= i < |Options| ==>
      Spelling(Options[i]) == ["--fast", "--workers", "--live", "--log", "--heartbeat", "--name", "--no-sort"][i]
  {
    forall i | 0 <= i < |Options|
      ensures Spelling(Options[i]) == ["--fast", "--workers", "--live", "--log", "--heartbeat", "--name", "--no-sort"][i]
    {
      SpelledAt(i);
    }
  }

  lemma SpelledAt(i: nat)
    requires i < |Options|
    ensures Spelling(Options[i]) == ["--fast", "--workers", "--live", "--log", "--heartbeat", "--name", "--no-sort"][i]
  {
    if i == 6 {
      assert Spelling(Options[6]) == "--" + "no" + "-" + "sort";
    }
  }

  /** Every declared option is well spelled, so `NamespaceIsDests` applies to them. */
  lemma OptionsWellSpelled()
    ensures forall o :: o in Options ==> WellSpelled(o)
  {
    forall o | o in Options
      ensures WellSpelled(o)
    {
      var i :| 0 <= i < |Options| && Options[i] == o;
    }
  }

  /** The joined words of the declared options, one by one. */
  lemma JoinedAt(i: nat)
    requires i < |Options|
    ensures WordsJoined(Options[i]) == ["fast", "workers", "live", "log", "heartbeat", "name", "no_sort"][i]
  {
  }

  /**
   * As written: `if args.no-sort:` parses as `args.no - sort`; Python
   * evaluates `args.no` first, which raises AttributeError when the namespace
   * has no attribute `no`, and would otherwise go on to the unbound global
   * `sort` (NameError). Either way the branch and the sort after it are not
   * reached.
   */
  function EndAsWritten(rows: seq<Row>, noSort: bool): Ending
  {
    if "no" !in Namespace(Options) then Raised("AttributeError") else Raised("NameError")
  }

  /** Whatever the rows and flags, the run ends with AttributeError and the final sort is never reached. */
  lemma SortNeverReached(rows: seq<Row>, noSort: bool)
    ensures EndAsWritten(rows, noSort) == Raised("AttributeError")
    ensures forall t :: EndAsWritten(rows, noSort) != Sorted(t)
  {
    NamespaceNames();
  }

  /** `key(r)`: `(r[0], float(aff))`, or `(r[0], 1e9)` when the affinity does not convert. */
  function SortKey(receptor: string, affinity: Option<real>): (k: Key)
    ensures k.receptor == receptor
    ensures affinity.Some? ==> k.affinity == affinity.value
    ensures affinity.None? ==> k.affinity == 1000000000.0
  {
    match affinity
    case Some(v) => Key(receptor, v)
    case None => Key(receptor, 1000000000.0)
  }

  /**
   * A row whose affinity does not convert would sort after every row of its
   * receptor with an affinity below 1e9. `work` stores every affinity as a
   * float, so the fallback never applies in this script.
   */
  lemma FallbackSortsLast(receptor: string, v: real)
    requires v < 1000000000.0
    ensures KeyLe(SortKey(receptor, Some(v)), SortKey(receptor, None))
    ensures !KeyLe(SortKey(receptor, None), SortKey(receptor, Some(v)))
  {
    LexLtIrreflexive(receptor);
  }

  /** The rows `work` builds always carry a float affinity, so their key is `(receptor, affinity)`. */
  predicate RowLe(a: Row, b: Row)
  {
    KeyLe(SortKey(a.receptor, Some(a.affinity)), SortKey(b.receptor, Some(b.affinity)))
  }

  lemma RowLeTotalPreorder()
    ensures TotalPreorder(RowLe)
  {
    forall a: Row, b: Row ensures RowLe(a, b) || RowLe(b, a) {
      KeyLeTotal(SortKey(a.receptor, Some(a.affinity)), SortKey(b.receptor, Some(b.affinity)));
    }
    forall a: Row, b: Row, c: Row | RowLe(a, b) && RowLe(b, c) ensures RowLe(a, c) {
      KeyLeTransitive(SortKey(a.receptor, Some(a.affinity)), SortKey(b.receptor, Some(b.affinity)),
                      SortKey(c.receptor, Some(c.affinity)));
    }
  }

  /** The evident intent: skip with `--no-sort`, otherwise `rows_buffer.sort(key=key)`. */
  function End(rows: seq<Row>, noSort: bool): (e: Ending)
    ensures noSort <==> e == Unsorted
  {
    if noSort then Unsorted else Sorted(SortBy(rows, RowLe))
  }

  /**
   * The intended final table holds the collected rows, ordered by receptor and
   * then by affinity, keeping completion order among equal keys.
   */
  lemma EndSorts(rows: seq<Row>)
    ensures End(rows, false).Sorted?
    ensures var t := End(rows, false).table;
      && multiset(t) == multiset(rows)
      && (forall i, j :: 0 <= i < j < |t| ==>
            LexLe(t[i].receptor, t[j].receptor) && (t[i].receptor == t[j].receptor ==> t[i].affinity <= t[j].affinity))
      && (forall c :: SameKey(t, RowLe, c) == SameKey(rows, RowLe, c))
  {
    RowLeTotalPreorder();
    var t := SortBy(rows, RowLe);
    SortBySorted(rows, RowLe);
    forall i, j | 0 <= i < j < |t|
      ensures LexLe(t[i].receptor, t[j].receptor) && (t[i].receptor == t[j].receptor ==> t[i].affinity <= t[j].affinity)
    {
      KeyLeMeans(SortKey(t[i].receptor, Some(t[i].affinity)), SortKey(t[j].receptor, Some(t[j].affinity)));
    }
    forall c ensures SameKey(t, RowLe, c) == SameKey(rows, RowLe, c) {
      SortByStable(rows, RowLe, c);
    }
  }
}
