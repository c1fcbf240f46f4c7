# Batch docking pipeline bookkeeping, in Dafny

This project models the bookkeeping of a batch molecular-docking pipeline: the
scripts that split ligand libraries, generate conformers, convert receptors,
build cluster (LSF) job files, run AutoDock Vina over every receptor-ligand
pair, and collect the docking scores into sorted tables. The chemistry, the
external programs and the scheduler are not modelled. What the model captures
is everything the scripts decide for themselves:

- which jobs exist;
- how files and folders are named;
- which inputs are rejected, and with which exit status;
- what each written file contains;
- how the results ledger is read back;
- how scores are parsed, counted and sorted.

One module per source file:

| module | source file |
|---|---|
| `BatchDocking` | `3_Complete_batch_docking.py` |
| `ParseVinaA` | `4A_Parse_VinaResults.py` |
| `ParseVinaB` | `4B_Parse_VinaResults.py` |
| `ConformerGeneration` | `1_ConformerGeneration.py` |
| `ConfgenBatch` | `1B_confgen_batch.py` |
| `ServerDocks` | `3B_ServerDocks.py` |
| `Packager` | `packager.py` |
| `LsfTemplates` | `lsf_templates.py` |
| `LigDirect` | `0_LigDirect.py` |
| `WebApp` | `app.py` |
| `PdbToPdbqt` | `3a_PDB2PDBQTbatch.py` |

Shared modules:

- `Sanitize`: the different name sanitisers.
- `IndexList`: `parse_index_list` in its 0-based and 1-based copies.
- `VinaResults`: the `REMARK VINA RESULT` pattern and pose numbering.
- `Ledger`: the `OK_LINE` pattern matched against the run log.
- `ResultsTree`: `os.walk` and `rglob` over a directory tree.
- `Completion`: `as_completed` draining.
- `Sorting`: Python's stable `sorted`.
- `PdbRecords`: PDB residue columns.
- `Text`, `Paths`, `Wrappers`: Python's string, `pathlib` and option and result helpers.

Conventions used throughout the model:

- **Files and folders.** The filesystem is a set of existing paths, or a map from a path to what reading it delivers. Folder listings and glob results are sequences given as inputs.
- **External programs.** Vina, the receptor preparation script, RDKit and Open Babel are oracles passed in as parameters.
- **Thread and process pools.** Completion order is an arbitrary permutation `order` of the submitted jobs.
- **Affinities.** Each is the exact decimal value of the matched text.
- **Loops.** Methods that update state step by step carry loop invariants. Each is proved against a specification function, and the properties are lemmas about those functions.

Two behaviours of the parsers that a reader may not expect:

- `4B_Parse_VinaResults.py` keeps the poses it read before a read error (`ParseVinaB.Work`). `4A_Parse_VinaResults.py` returns no rows at all when reading raises (`4A_Parse_VinaResults.py:14-23`, `ParseVinaA.Work`).
- As written, `4A_Parse_VinaResults.py` raises before it sorts, so its final table is never produced (see Findings).

## Model

| member | source | states |
|---|---|---|
| Sanitize.ReplaceDisallowed | 3_Complete_batch_docking.py:41 | every allowed character (alphanumeric, `-`, `_`, `.`) is kept in place and every other becomes `_`, length unchanged |
| Sanitize.SanitizeTag | 3_Complete_batch_docking.py:39-41 | the result is a clean tag: nonempty, only allowed characters, no leading or trailing `_` |
| Sanitize.SanitizeId | 1_ConformerGeneration.py:54-56 | a missing or empty id becomes `ligand`; the result is a clean tag |
| Sanitize.SanitizeMol | 0_LigDirect.py:9-10 | the result is a clean tag (fallback `mol`) |
| Sanitize.SanitizeWithFixed | 3_Complete_batch_docking.py:41 | a name that is already a clean tag is returned unchanged |
| Sanitize.SanitizeTagIdempotent | 3_Complete_batch_docking.py:39-41 | sanitising twice equals sanitising once |
| Sanitize.SanitizeIdIdempotent | 1_ConformerGeneration.py:54-56 | sanitising twice equals sanitising once |
| Sanitize.SanitizeMolIdempotent | 0_LigDirect.py:9-10 | sanitising twice equals sanitising once |
| Sanitize.SanitizersAgree | 1_ConformerGeneration.py:54-56 | the three per-character sanitisers agree on every name that does not reduce to underscores |
| Sanitize.SanitizerFallbacks | 0_LigDirect.py:10 | on `_ _` they differ only in the fallback: `X`, `mol`, `ligand` |
| Sanitize.SanitizeIdMissing | 1_ConformerGeneration.py:55-56 | no id and the empty id both give `ligand` |
| Sanitize.CollapseRuns | lsf_templates.py:9-10 | the run-collapsing sanitiser yields only `[A-Za-z0-9._-]` |
| Sanitize.CollapseSafe | lsf_templates.py:9-10 | a name already made of safe characters is unchanged |
| Sanitize.CollapseIdempotent | 1B_confgen_batch.py:51-53 | collapsing twice equals collapsing once |
| Sanitize.CollapseRun | 1B_confgen_batch.py:53 | a whole run of unsafe characters becomes one `_` |
| Sanitize.CollapseConcat | 1B_confgen_batch.py:53 | collapsing distributes over a split before a safe character |
| Sanitize.FamiliesDiffer | lsf_templates.py:10 | the two sanitiser families disagree on `é`: kept by one, replaced by the other |
| Sanitize.RunsDiffer | lsf_templates.py:10 | `a  b` gives `a__b` per character but `a_b` when runs collapse |
| Text.PyInt | 3_Complete_batch_docking.py:110 | `int(s)` succeeds only on text with a nonblank core |
| Text.PyIntOfNat | 3_Complete_batch_docking.py:110 | `int` reads back every printed natural number |
| Text.NatToStringValue | 0_LigDirect.py:55 | the printed number's digits denote the number |
| Text.ZeroPadValue | 0_LigDirect.py:55 | zero padding keeps the value and reaches the width |
| Text.SplitJoin | 1_ConformerGeneration.py:361 | splitting a joined list at a separator it does not contain gives the list back |
| Paths.PathName | 3_Complete_batch_docking.py:44 | `Path(p).name` has no `/` and is never `.` |
| Paths.PathNameOfChild | 3_Complete_batch_docking.py:44 | the name of `dir/name` is `name` |
| Paths.Stem | packager.py:217 | stem followed by suffix is the whole name |
| Paths.StemOfSuffixed | packager.py:217 | `base.ext` has stem `base` and suffix `.ext` |
| Paths.SplitExtPdbqt | 3_Complete_batch_docking.py:186 | `splitext` of `X.pdbqt` gives `X` |
| BatchDocking.ReceptorTagOfName | 3_Complete_batch_docking.py:43-47 | the receptor tag is a clean tag |
| BatchDocking.ReceptorTag | 3_Complete_batch_docking.py:43-47 | for a folder path, the tag of its name is a clean tag |
| BatchDocking.ReceptorTagStripsOnce | 3_Complete_batch_docking.py:45-47 | `Receptors_X` gives `X`; `Receptors_` alone gives `Receptors` |
| BatchDocking.CpdNumber | 3_Complete_batch_docking.py:51 | a match yields digits `d` with the name starting `Ligands_CPD<d>_Ligands` |
| BatchDocking.CpdNumberFinds | 3_Complete_batch_docking.py:51 | every such name is matched, with its digits |
| BatchDocking.LigandTagOfName | 3_Complete_batch_docking.py:49-54 | a clean tag, and `CPD<d>` whenever the name matches the pattern |
| BatchDocking.LigandTag | 3_Complete_batch_docking.py:49-54 | for a folder path, a clean tag |
| BatchDocking.StemHasNoSlash | 3_Complete_batch_docking.py:163-170 | the run stem, built from the two clean folder tags, the pose count and a timestamp without `/`, holds no `/` |
| BatchDocking.RunNamesInCwd | 3_Complete_batch_docking.py:167-180 | the results folder and the run log sit directly in the working folder, named `Docking_Results_<stem>` and `run_log_<stem>.txt` |
| BatchDocking.SafePdbidNoSlash | 3_Complete_batch_docking.py:217-218 | the receptor folder name derived from the receptor file holds no `/` |
| BatchDocking.JobOutputsInResults | 3_Complete_batch_docking.py:217-225 | a job's `out.pdbqt`, `log.txt` and `config.txt` all lie below `results_dir/` |
| BatchDocking.ResolvedRowsResolve | 3_Complete_batch_docking.py:191-209 | every resolved row is one of the CSV rows and carries the file its `PDB_ID` resolves to |
| BatchDocking.JobAt | 3_Complete_batch_docking.py:211-240 | job `n` is the job of resolved row `n / L` and ligand `n % L`, for `L` ligands |
| BatchDocking.CpuCount | 3_Complete_batch_docking.py:100-113 | at least 1; `max(1, min(base, lsf))` when `LSB_DJOB_NUMPROC` parses to `lsf`; `max(1, base)` when the variable is absent or unparsable |
| BatchDocking.MaxWorkers | 3_Complete_batch_docking.py:242-244 | 1 to ncpus: all of them without a reserve, `ncpus - reserve` when that is positive, else 1 |
| BatchDocking.CenterRows | 3_Complete_batch_docking.py:191-193 | one centre row per CSV row, in order, whose `pdbid`, `x`, `y` and `z` are that row's `PDB_ID`, `X`, `Y` and `Z` |
| BatchDocking.FirstExisting | 3_Complete_batch_docking.py:199-203 | the index of the first existing candidate, or none when none exists |
| BatchDocking.ResolutionOrder | 3_Complete_batch_docking.py:194-209 | the bare path when it exists, else the first of `.pdbqt`, `.pdb`, `.mol2` that exists, else unresolved |
| BatchDocking.ResolveReceptor | 3_Complete_batch_docking.py:194-209 | the loop finds exactly the resolution above |
| BatchDocking.MakeJob | 3_Complete_batch_docking.py:218-240 | the job's outputs are `out.pdbqt`, `log.txt` and `config.txt` in `results/<safe_pdbid>/<ligand>` |
| BatchDocking.SafePdbidOfResolved | 3_Complete_batch_docking.py:218-219 | the output folder of a resolved receptor is the `PDB_ID` without receptor extensions |
| BatchDocking.StripReceptorExtAppend | 3_Complete_batch_docking.py:219 | stripping ignores an appended receptor extension |
| BatchDocking.LigandNameOfEntry | 3_Complete_batch_docking.py:185-212 | the ligand file rebuilt from a globbed name is the globbed file |
| BatchDocking.GlobbedLigandsPresent | 3_Complete_batch_docking.py:185-213 | every globbed ligand passes the existence check |
| BatchDocking.LigandLoop | 3_Complete_batch_docking.py:211-216 | the inner loop adds one job per present ligand and one log line per missing one |
| BatchDocking.LigandJobsAll | 3_Complete_batch_docking.py:211-240 | with every ligand present, the row gives exactly one job per ligand in order and no log line |
| BatchDocking.BuildJobs | 3_Complete_batch_docking.py:191-240 | the row loop produces exactly the job list and the missing-receptor log |
| BatchDocking.JobsRowMajor | 3_Complete_batch_docking.py:191-240 | the jobs form a resolved-row by ligand matrix in row-major order, and each unresolved row writes one log line |
| BatchDocking.ConfigLines | 3_Complete_batch_docking.py:62-72 | the Vina config has exactly ten lines |
| BatchDocking.ConfigRoundTrip | 3_Complete_batch_docking.py:62-72 | reading the config text back as `key = value` gives the job's receptor, ligand, centre, box 20, poses and output |
| BatchDocking.LogBytes | 3_Complete_batch_docking.py:86-92 | stdout then stderr, with the `--- STDERR ---` separator exactly when both are nonempty |
| BatchDocking.RunOutcome | 3_Complete_batch_docking.py:94-98 | success exactly for exit code 0; the line is `✅ <ligand> → <pdbid>` on success and `❌ <ligand> vs <pdbid>: <stripped stderr>` on failure |
| BatchDocking.DrainCompleted | 3_Complete_batch_docking.py:262-277 | every job is counted once; successes are the jobs that exited 0; the log lines come in completion order and are appended to the run log |
| BatchDocking.Tally | 3_Complete_batch_docking.py:262-277 | the `as_completed` loop counts every job once, counts as successes exactly the flagged jobs, and logs each job's line in completion order |
| BatchDocking.PrepareRun | 3_Complete_batch_docking.py:155-256 | `ValueError` exactly when a required header is missing, `FileNotFoundError` exactly when no ligand was globbed, `RuntimeError` exactly when no job was built; else the results folder and run log named from the stem, the jobs, and the missing-receptor log |
| BatchDocking.NoJobsIffNoReceptor | 3_Complete_batch_docking.py:253-256 | with globbed ligands, no job is built exactly when no receptor resolved |
| BatchDocking.JobsEmptyIff | 3_Complete_batch_docking.py:191-240 | with present ligands, the job list is empty exactly when no row resolved |
| IndexList.ReadToken | 1_ConformerGeneration.py:181-185 | a range token is ordered low to high (swapped when given reversed) |
| IndexList.AddToken | 1_ConformerGeneration.py:178-191 | one comma piece adds exactly its in-bounds picks |
| IndexList.AddRange | 1_ConformerGeneration.py:186-187 | a range adds exactly its in-bounds members |
| IndexList.Ascending | 1_ConformerGeneration.py:192 | `sorted(picks)` is strictly increasing, in bounds, with the same members |
| IndexList.ParseIndexList | 1_ConformerGeneration.py:174-192 | strictly increasing, in bounds, exactly the selected indices |
| IndexList.BlankSelectsNothing | 1_ConformerGeneration.py:175-176 | blank input selects nothing |
| IndexList.EmptyPieceSelectsNothing | 1_ConformerGeneration.py:180 | an empty piece selects nothing |
| IndexList.OneBasedIsShifted | 3B_ServerDocks.py:116-134 | the 1-based copy selects `j` exactly when the 0-based one selects `j+1` over one more item |
| IndexList.ZeroDiffers | 1B_confgen_batch.py:99-126 | `0` selects the first item 0-based and nothing 1-based |
| IndexList.ParsePrinted | 1_ConformerGeneration.py:174-192 | printing an increasing in-bounds list and parsing it gives the list back |
| Completion.OrderingCovers | 3_Complete_batch_docking.py:265 | a completion order visits every submitted job exactly once |
| Completion.AmongAll | 3_Complete_batch_docking.py:271-274 | counting over any completion order counts every marked job |
| Completion.GatheredPermutation | 4B_Parse_VinaResults.py:226-227 | rows gathered in two orders that are permutations of each other are permutations of each other |
| Completion.GatheredAnyOrder | 4A_Parse_VinaResults.py:176-181 | the rows gathered in completion order are a permutation of the rows in submission order |
| Completion.HeartbeatsAreMultiples | 4B_Parse_VinaResults.py:237 | a heartbeat is written at exactly the multiples of the interval, in increasing order |
| Sorting.SortBy | 4B_Parse_VinaResults.py:255 | the sorted list is a permutation of the input |
| Sorting.SortBySorted | 4B_Parse_VinaResults.py:255 | under a total preorder the result is sorted |
| Sorting.SortByStable | 4B_Parse_VinaResults.py:255 | elements with equal keys keep their relative order |
| Sorting.SortBySortedInput | 4A_Parse_VinaResults.py:230 | an already sorted input is unchanged |
| Sorting.FilterSorted | 3a_PDB2PDBQTbatch.py:36-38 | filtering a sorted list keeps it sorted |
| VinaResults.NumberPrefixText | 4B_Parse_VinaResults.py:8 | the number group reads back any printed decimal that is not followed by another digit |
| VinaResults.ScoreLineScore | 4B_Parse_VinaResults.py:8 | a `REMARK VINA RESULT:` line yields exactly its printed score |
| VinaResults.VinaScore | 4B_Parse_VinaResults.py:8 | a score is read only from a line starting with `REMARK`, and it is a well-formed decimal |
| VinaResults.ExponentIgnored | 4A_Parse_VinaResults.py:7 | an exponent after the number is ignored: the score is the mantissa |
| VinaResults.PlusRejected | 4A_Parse_VinaResults.py:7 | a `+` sign is not a score |
| VinaResults.Numbered | 4B_Parse_VinaResults.py:19-21 | poses are numbered 1, 2, … in file order |
| VinaResults.PosesSnoc | 4B_Parse_VinaResults.py:17-21 | one more line adds a pose exactly when it matches |
| VinaResults.PosesPrefix | 4B_Parse_VinaResults.py:12-24 | the poses of a prefix of the file are a prefix of its poses |
| VinaResults.CollectPoses | 4B_Parse_VinaResults.py:12-24 | the reading loop collects exactly the numbered poses |
| VinaResults.KeyLeMeans | 4B_Parse_VinaResults.py:255 | the sort key orders by receptor and, within one receptor, by affinity |
| ResultsTree.FindCandidates | 4A_Parse_VinaResults.py:67-68 | exactly the working folder's entries that start with `Docking_Results_` and are folders |
| ResultsTree.FindSound | 4A_Parse_VinaResults.py:111-116 | every file the walk reports lies below the start and matches |
| ResultsTree.FindAllSound | 4A_Parse_VinaResults.py:112-116 | every file found among siblings comes from one of them, never through a pruned hidden folder |
| ResultsTree.FindComplete | 4A_Parse_VinaResults.py:111-116 | every matching file reachable without hidden folders is reported |
| ResultsTree.FindExactly | 4B_Parse_VinaResults.py:178-185 | reported exactly when located |
| ResultsTree.CollectTargets | 4A_Parse_VinaResults.py:105-116 | the loop over scope folders collects the walk of each |
| ResultsTree.FindScopesSound | 4A_Parse_VinaResults.py:105-116 | every target lies in one chosen scope |
| ResultsTree.FindScopesComplete | 4B_Parse_VinaResults.py:178-185 | every matching file of every scope is a target |
| Ledger.LedgerPair | 4B_Parse_VinaResults.py:155-163 | lines with neither marker nor arrow are skipped; the receptor group is nonempty and made of safe characters |
| Ledger.FirstMatch | 4B_Parse_VinaResults.py:9 | a match has a nonempty ligand group and a nonempty receptor group of safe characters |
| Ledger.OkLineShape | 4B_Parse_VinaResults.py:9 | the lazy ligand group ends at the last non-blank before the arrow |
| Ledger.LedgerOfWritten | 4B_Parse_VinaResults.py:155-163 | for a stripped line, the ledger pair is the stripped match groups |
| Ledger.SuccessLineReadBack | 4B_Parse_VinaResults.py:155-166 | a success line of the docking run reads back as its (ligand, PDB_ID) |
| Ledger.FailureLineReadBack | 4B_Parse_VinaResults.py:155-166 | a failure line whose error text holds an arrow is read as a pair, with the failure head as the ligand |
| ParseVinaB.LedgerTarget | 4B_Parse_VinaResults.py:162-166 | the receptor folder is the receptor file without extensions; the pose file is named `out.pdbqt` |
| ParseVinaB.LedgerFindsJobOutput | 4B_Parse_VinaResults.py:164-165 | the target built from a job's (ligand, PDB_ID) is that job's `out.pdbqt` |
| ParseVinaB.SuccessLineFindsJobOutput | 4B_Parse_VinaResults.py:152-166 | a success line the docking run wrote is read back as the target at that job's `out.pdbqt` |
| ParseVinaB.ReadLedger | 4B_Parse_VinaResults.py:152-166 | the loop collects the targets of the matching lines in file order |
| ParseVinaB.LedgerTargetsFrom | 4B_Parse_VinaResults.py:152-166 | a target is collected exactly when some line matches and builds it |
| ParseVinaB.CrawlTargets | 4B_Parse_VinaResults.py:176-185 | one target per `out.pdbqt` found |
| ParseVinaB.CrawlTargetsExactly | 4B_Parse_VinaResults.py:176-185 | every `out.pdbqt` reachable in a scope becomes a target |
| ParseVinaB.CrawlTargetsSound | 4B_Parse_VinaResults.py:176-185 | every crawl target is an `out.pdbqt` located in a scope, named after its grandparent and parent |
| ParseVinaB.LocatedExactName | 4B_Parse_VinaResults.py:180-181 | the walk for `out.pdbqt` only locates files with that exact name |
| ParseVinaB.Targets | 4B_Parse_VinaResults.py:147-187 | exit 1 exactly when the log is not a file, exit 2 exactly when nothing was found, else the ledger or crawl targets |
| ParseVinaB.Work | 4B_Parse_VinaResults.py:207-215 | a missing file gives no rows and no hit; otherwise one row per pose with its number and affinity, a hit exactly when rows exist |
| ParseVinaB.Drain | 4B_Parse_VinaResults.py:218-243 | every target processed once; hits counted; rows gathered in completion order; with `write_parse_log` heartbeats at the multiples of `max(1, hb)`, without it none |
| ParseVinaB.DrainParts | 4B_Parse_VinaResults.py:220-243 | the loop over results in any completion order: the count is every target, the hits are the flagged targets, the rows are the parts gathered in that order |
| ParseVinaB.Collect | 4B_Parse_VinaResults.py:221-227 | one result extends the buffer by its rows and adds one hit exactly when it had poses |
| ParseVinaB.Heartbeat | 4B_Parse_VinaResults.py:222-237 | after the `n`-th result a heartbeat is added exactly when the log is on and `n` is a multiple of the interval |
| ParseVinaB.FinalTableOrdered | 4B_Parse_VinaResults.py:255 | the final table is a permutation, sorted by receptor then affinity, stable |
| ParseVinaB.FinalTableAnyOrder | 4B_Parse_VinaResults.py:218-255 | whatever the completion order, the final table holds the same rows |
| ParseVinaB.ParseResults | 4B_Parse_VinaResults.py:131-258 | the target errors pass through; otherwise the counts, the heartbeats when `write_parse_log` is set (none otherwise), and the sorted table unless `--no-sort` |
| ParseVinaB.LogCandidates | 4B_Parse_VinaResults.py:107 | exactly the working folder's entries that start with `run_log_` or end in `.log` |
| ParseVinaB.DockingFolderOffered | 4B_Parse_VinaResults.py:81-82 | started in the docking run's working folder, the parser offers that run's results folder |
| ParseVinaB.RunLogOffered | 4B_Parse_VinaResults.py:107 | started there, it offers that run's log |
| ParseVinaB.JobSuccessReadsBack | 4B_Parse_VinaResults.py:152-166 | the success line of any job the docking run built reads back as the target at that job's `out.pdbqt` |
| ParseVinaB.DrainedSuccessesReadBack | 3_Complete_batch_docking.py:262-277 | every success line the completion loop appends, in any completion order, reads back as its job's `out.pdbqt` |
| ParseVinaA.ParsePoses | 4A_Parse_VinaResults.py:10-23 | a read error gives no poses at all; otherwise the numbered poses |
| ParseVinaA.AllOrNothingVsPartial | 4A_Parse_VinaResults.py:21-22 | 4A's result equals the full poses or nothing, and is always a prefix of what 4B would keep |
| ParseVinaA.DropPoseOf | 4A_Parse_VinaResults.py:30-32 | `<g>_pose<digits>` gives back `g` |
| ParseVinaA.DropPose | 4A_Parse_VinaResults.py:30-32 | a changed name is a nonempty `g` with the original equal to `g_pose<digits>` |
| ParseVinaA.DropTags | 4A_Parse_VinaResults.py:27-29 | the `_out`, `_OUT`, `-out` suffix is removed from a name ending in a digit |
| ParseVinaA.DropSuffix | 4A_Parse_VinaResults.py:27-29 | a name ending in the tag loses exactly the tag; any other name is unchanged |
| ParseVinaA.GuessRecoversLigand | 4A_Parse_VinaResults.py:25-33 | `<lig>_pose<n><tag>.<ext>` gives back the ligand name; `work` overwrites this guess with the parent folder name (`4A_Parse_VinaResults.py:156-157`), so it never reaches a row |
| ParseVinaA.CollectTargets | 4A_Parse_VinaResults.py:105-120 | exit 2 exactly when the glob or walk finds nothing |
| ParseVinaA.CollectTargetsExactly | 4A_Parse_VinaResults.py:105-116 | every matching file in a scope is a target |
| ParseVinaA.CollectTargetsSound | 4A_Parse_VinaResults.py:105-116 | every target lies below one of the scopes and matches the glob or name searched |
| ParseVinaA.Header | 4A_Parse_VinaResults.py:132-138 | five columns in fast mode, six otherwise |
| ParseVinaA.Work | 4A_Parse_VinaResults.py:148-171 | files named like receptors give nothing; otherwise one row per pose of the all-or-nothing read, named after grandparent and parent, numbered from 1, with the pose's affinity, the path relative to the results folder and the run timestamp unless `--fast`; a hit exactly when rows exist |
| ParseVinaA.DrainResults | 4A_Parse_VinaResults.py:174-206 | a zero heartbeat with logging raises `ZeroDivisionError`; otherwise every target counted once, rows in completion order |
| ParseVinaA.Drain | 4A_Parse_VinaResults.py:174-206 | the same over the targets' rows and hits |
| ParseVinaA.DestOfOption | 4A_Parse_VinaResults.py:72-87 | argparse stores `--<w>` under `w` and `--<a>-<b>` under `a_b` |
| ParseVinaA.NamespaceIsDests | 4A_Parse_VinaResults.py:72-87 | for well-spelled options the namespace is exactly the set of argparse dests |
| ParseVinaA.OptionsAsDeclared | 4A_Parse_VinaResults.py:72-87 | the seven declared option strings, all well spelled |
| ParseVinaA.NamespaceNames | 4A_Parse_VinaResults.py:72-87 | the namespace is exactly `fast`, `workers`, `live`, `log`, `heartbeat`, `name`, `no_sort`, so it has no `no` |
| ParseVinaA.SortNeverReached | 4A_Parse_VinaResults.py:215 | `args.no - sort` looks up `no`, which the namespace lacks, so the run ends in `AttributeError` whatever the flag and no table is sorted |
| ParseVinaA.SortKey | 4A_Parse_VinaResults.py:223-228 | receptor first, then the affinity, with 1e9 when it is not a number; in this script every affinity is already a float (`4A_Parse_VinaResults.py:19`), so the fallback never fires |
| ParseVinaA.FallbackSortsLast | 4A_Parse_VinaResults.py:223-228 | rows without a number would sort after every real affinity of the same receptor; unreachable here, since `work` stores floats |
| ParseVinaA.End | 4A_Parse_VinaResults.py:215-230 | unsorted exactly under `--no-sort` |
| ParseVinaA.EndSorts | 4A_Parse_VinaResults.py:230 | otherwise the table is a permutation, sorted by receptor then affinity, stable |
| ConformerGeneration.RowTaskExactly | 1_ConformerGeneration.py:316-324 | a row is skipped exactly when its SMILES is empty or does not parse; the id is sanitised |
| ConformerGeneration.MissingIdIsLigand | 1_ConformerGeneration.py:318 | a row without the id column becomes `ligand` |
| ConformerGeneration.CsvTasksFrom | 1_ConformerGeneration.py:316-324 | a task is collected exactly when some row yields it |
| ConformerGeneration.CollectTasks | 1_ConformerGeneration.py:302-327 | exit 1 exactly without a header, exit 2 exactly without tasks, else the tasks |
| ConformerGeneration.FolderTokensShape | 1_ConformerGeneration.py:361 | the split pieces are nonempty and comma-free |
| ConformerGeneration.FolderTokensOfList | 1_ConformerGeneration.py:359-361 | a `, `-joined list of trimmed names splits back into the list |
| ConformerGeneration.SplitFolderArgs | 1_ConformerGeneration.py:359-361 | the loop collects the pieces of every argument in order |
| ConformerGeneration.ResolveEach | 1_ConformerGeneration.py:362-366 | exit 1 exactly when some piece is not a folder; else every piece resolved |
| ConformerGeneration.ResolveFolders | 1_ConformerGeneration.py:357-368 | exit 1 exactly when some piece is not a folder; else the resolved folders sorted by lower-cased name |
| ConformerGeneration.ResolvedFoldersOrdered | 1_ConformerGeneration.py:368 | that order is a permutation, sorted, stable |
| ConformerGeneration.FileType | 1_ConformerGeneration.py:369 | no type means `sdf`; otherwise lower-cased |
| ConformerGeneration.CheckFileType | 1_ConformerGeneration.py:369-383 | accepted exactly when the type is absent or `sdf`/`smiles` in any case; else exit 1 |
| ConfgenBatch.SanitizeName | 1B_confgen_batch.py:51-53 | only safe characters |
| ConfgenBatch.SanitizeNameOfChild | 1B_confgen_batch.py:53 | only the last path component counts, with unsafe runs collapsed |
| ConfgenBatch.SanitizeNameIdempotent | 1B_confgen_batch.py:51-53 | sanitising twice equals sanitising once |
| ConfgenBatch.CollapseOnlyDot | 1B_confgen_batch.py:53 | only `.` itself collapses to `.` |
| ConfgenBatch.CsvFlags | 1B_confgen_batch.py:131-135 | no column flags exactly when both names are absent or empty |
| ConfgenBatch.RunCmd | 1B_confgen_batch.py:128-150 | the command starts with the effective `--mode`, then the quoted target and the mode's options, and ends with the poses and workers |
| ConfgenBatch.CsvCommandNamesTarget | 1B_confgen_batch.py:130-138 | mode 1 passes `--csv "<target>"` followed by the column flags |
| ConfgenBatch.FolderCommandNamesTarget | 1B_confgen_batch.py:139-144 | mode 2 passes `--folder "<target>" --filetype <filetype or sdf>` |
| ConfgenBatch.SdfCommandNamesTarget | 1B_confgen_batch.py:145-149 | any other mode passes `--mode 3 --sdf "<target>"` |
| ConfgenBatch.RunCmdNamesTarget | 1B_confgen_batch.py:128-150 | for targets without a double quote, equal commands in one mode have equal targets: the command determines its target |
| ConfgenBatch.FolderDefaultsToSdf | 1B_confgen_batch.py:141 | no file type in folder mode means `sdf` |
| ConfgenBatch.OtherModesAreSdf | 1B_confgen_batch.py:146-150 | any mode other than 1 and 2 builds the single-SDF command |
| ConfgenBatch.ColumnsOnlyForCsv | 1B_confgen_batch.py:130-135 | column names change only the CSV command, and empty names change nothing |
| ConfgenBatch.ColumnFlagsLengthen | 1B_confgen_batch.py:131-138 | given column names always lengthen the CSV command |
| ConfgenBatch.CliTargetsOfList | 1B_confgen_batch.py:267 | a comma-joined list of trimmed targets splits back into the list |
| ConfgenBatch.ChooseTargets | 1B_confgen_batch.py:259-270 | exit 2 exactly for `--auto` in folder mode without a file type; else the split targets or the discovered folders |
| ConfgenBatch.ValidTargetsExactly | 1B_confgen_batch.py:276-297 | a target is kept exactly when it passes its mode's check |
| ConfgenBatch.Validate | 1B_confgen_batch.py:276-300 | exit 2 exactly when nothing is valid, else the valid targets in order |
| ConfgenBatch.JobsAsWritten | 1B_confgen_batch.py:303-309 | one job per valid target, built from the command-line column names |
| ConfgenBatch.Jobs | 1B_confgen_batch.py:303-309 | one job per valid target, built from the chosen column names |
| ConfgenBatch.InteractiveColumnsLost | 1B_confgen_batch.py:306 | columns chosen at the prompt do not reach the command as written |
| ConfgenBatch.JobsAgreeOnArguments | 1B_confgen_batch.py:269-270 | on the command-line path both builds agree |
| ConfgenBatch.CsvCommandCarriesColumns | 1B_confgen_batch.py:131-138 | the CSV command carries `--smiles-col` and `--id-col` before the tail |
| ConfgenBatch.BsubLines | 1B_confgen_batch.py:174-175 | one quoted `bsub <` line per job file, in order |
| ConfgenBatch.WriteSubmitter | 1B_confgen_batch.py:171-178 | the submitter is the header then the `bsub` lines, newline-joined with a final newline |
| ConfgenBatch.SubmitterReadsBack | 1B_confgen_batch.py:46-49 | split into lines: the three header lines, a blank line, the `bsub` lines, and an empty end |
| ServerDocks.Rank | 3B_ServerDocks.py:78-102 | rank 0 to 3 by name prefix and whether the folder holds PDBQT files |
| ServerDocks.LigandCandidatesOrdered | 3B_ServerDocks.py:78-89 | a permutation, ordered by rank then lower-cased name, stable |
| ServerDocks.ReceptorCandidatesOrdered | 3B_ServerDocks.py:91-102 | a permutation, ordered by rank then lower-cased name, stable |
| ServerDocks.LigandTag | 3B_ServerDocks.py:140-142 | `CPD<d>` when the CPD pattern matches, else the name unchanged |
| ServerDocks.ReceptorTag | 3B_ServerDocks.py:144-145 | `Receptors_` removed once when present, else the name unchanged |
| ServerDocks.LigandTagsAgreeOnCpd | 3B_ServerDocks.py:140-142 | agrees with the docking run's ligand tag on CPD folders |
| ServerDocks.LigandTagsDifferOnSpace | 3B_ServerDocks.py:142 | differs from it on `a b`: no sanitising here |
| ServerDocks.SelectOne | 3B_ServerDocks.py:216-222 | succeeds exactly when one index is selected; else exit 2 |
| ServerDocks.SelectMany | 3B_ServerDocks.py:223-229 | succeeds exactly when something is selected: increasing and in bounds; else exit 2 |
| ServerDocks.Pick | 3B_ServerDocks.py:229 | the chosen candidates, in index order |
| ServerDocks.RowJobs | 3B_ServerDocks.py:270-279 | one job per ligand folder for a receptor folder |
| ServerDocks.RowJobsAt | 3B_ServerDocks.py:270-278 | job `l` is tagged `<receptor tag>_<ligand tag>` and names both folders and the centres file |
| ServerDocks.Jobs | 3B_ServerDocks.py:302-315 | receptors times ligands jobs |
| ServerDocks.JobsRowMajor | 3B_ServerDocks.py:302-315 | in receptor-major order |
| ServerDocks.CentersByReceptor | 3B_ServerDocks.py:291-300 | every chosen receptor folder maps to its chosen centres file |
| ServerDocks.OutNames | 3B_ServerDocks.py:191 | one `run_vina_<tag>.lsf` path per job, in order |
| ServerDocks.WriteRow | 3B_ServerDocks.py:305-315 | the inner loop appends the row's paths and writes the row's files |
| ServerDocks.WriteJobs | 3B_ServerDocks.py:305-315 | writing jobs appends their paths and their files |
| ServerDocks.BuildJobs | 3B_ServerDocks.py:291-315 | the paths are those of all jobs, and the files are what writing them all leaves |
| ServerDocks.WrittenLastWins | 3B_ServerDocks.py:191-192 | a file exists per path, and holds the last job with that tag |
| ServerDocks.EqualTagsShareAFile | 3B_ServerDocks.py:144-145 | folders `Receptors_A` and `A` share a job file, and the second job overwrites the first |
| ServerDocks.BsubLines | 3B_ServerDocks.py:198-199 | one quoted `bsub <` line per job file, in order |
| ServerDocks.WriteSubmitter | 3B_ServerDocks.py:195-202 | the three header lines then the `bsub` lines, newline-joined with a final newline |
| ServerDocks.SubmitterReadsBack | 3B_ServerDocks.py:197-200 | split into lines it gives exactly the header and `bsub` lines |
| Packager.Updated | packager.py:53 | the matched row gets the new name, centre and size; its other keys are kept |
| Packager.FirstMatch | packager.py:50-55 | the first row whose `PDBQT`, or else `pdbqt`, equals the name |
| Packager.UpsertRows | packager.py:50-57 | the loop updates the first match, else appends a new row |
| Packager.UpsertTouchesOneRow | packager.py:50-57 | exactly one row carries the new values and every other row is unchanged; one row more only when nothing matched |
| Packager.UpsertIdempotent | packager.py:50-57 | upserting a nonempty name twice equals upserting once |
| Packager.EmptyNameAppendsAgain | packager.py:51-52 | an empty name never matches, so it is appended each time |
| Packager.Cells | packager.py:59-62 | the written cells follow the five fixed columns, empty where a key is missing |
| Packager.CleanPrefix | packager.py:62 | `writerows` writes the rows before the first row with an extra key |
| Packager.WriteRows | packager.py:59-62 | the writer's result as written |
| Packager.WriteCentersCsvRow | packager.py:36-62 | read, upsert and write as written |
| Packager.MissingFileGetsOneRow | packager.py:46-47 | with no file the CSV is the header and the one new row |
| Packager.ExtraColumnEmptiesFile | packager.py:59-62 | a file whose first row has an extra column is rewritten as the header alone, and the write raises |
| Packager.LowercaseMatchRaises | packager.py:51-53 | a match through the lowercase `pdbqt` column always raises |
| Packager.IgnoringExtrasKeepsRows | packager.py:59-62 | ignoring extra keys writes every row with the new centre |
| Packager.FindPdbqtDir | packager.py:77-83 | `Receptors_PDBQT` first, then `Receptors_PDBQT_Converted`, else none |
| Packager.ConvertedRename | packager.py:65-70 | a file is renamed exactly when its name holds `.converted.` and its suffix is `.pdbqt` in any case |
| Packager.ConvertedRenameOfStem | packager.py:68-69 | `X.converted.pdbqt` becomes `X.pdbqt`, and `X.pdbqt` is left alone |
| Packager.TagColumn | packager.py:212-214 | `PDB_ID` when the stripped header has it, else `receptor_pdbqt`, else none |
| Packager.CollectReceptorTags | packager.py:206-224 | the loop builds the stem-to-tag map, or the error a row raises |
| Packager.FillTags | packager.py:215-223 | the map of the row entries, or the first error |
| Packager.MapOfLastWins | packager.py:223 | every stem seen is a key, and a stem holds its last tag |
| Packager.TagsLastWins | packager.py:215-223 | over rows: every stem is a key, and its last row's tag wins |
| Packager.PaddedHeaderRaises | packager.py:212-217 | a header written ` PDB_ID` is found after stripping but read unstripped: `KeyError` |
| LsfTemplates.SanitizeName | lsf_templates.py:9-10 | only safe characters |
| LsfTemplates.SanitizeNameIdempotent | lsf_templates.py:9-10 | sanitising twice equals sanitising once |
| LsfTemplates.SanitizersDifferOnPaths | lsf_templates.py:9-10 | on `a/b` it gives `a_b` where the batch builder's gives `b` |
| LsfTemplates.HeaderLines | lsf_templates.py:12-36 | 23 header lines, with the job name and environment line in place |
| LsfTemplates.HeaderOpens | lsf_templates.py:12 | the header starts with `#` |
| LsfTemplates.VinaPinInHeader | lsf_templates.py:129 | the `VINA_EXE` export appears exactly when a Vina path is given |
| LsfTemplates.CsvCandidates | lsf_templates.py:78 | the workspace's own CSV files first, unchanged and in order, then each `Ligands` CSV under the job root |
| LsfTemplates.ConfgenBody | lsf_templates.py:76-106 | mode 1 without a CSV exits 2; otherwise the launch line starts with the mode and ends with poses and workers |
| LsfTemplates.ModeOneUsesFirstCsv | lsf_templates.py:82-84 | mode 1 uses the first CSV found |
| LsfTemplates.MissingModeIsFolder | lsf_templates.py:99-106 | any other mode, including none, is the folder body |
| LsfTemplates.ModeThreeDefaultSdf | lsf_templates.py:93 | mode 3 without a path uses `Ligands/example.sdf` |
| LsfTemplates.ConfgenFiles | lsf_templates.py:55-112 | three files: the placeholder, the job file and the submitter |
| LsfTemplates.JobFileIsNotSubmitter | lsf_templates.py:108-110 | the job file never overwrites the submitter |
| LsfTemplates.JobFolderReplacesPlaceholder | lsf_templates.py:56-109 | for a job folder named `job`, the real job file overwrites the placeholder |
| LsfTemplates.SubmitterRunsTheJob | lsf_templates.py:111 | the submitter is the shebang line and one `bsub <` line |
| LsfTemplates.ConfgenSubmitterRunsTheJob | lsf_templates.py:108-111 | the conformer submitter submits the written job file |
| LsfTemplates.CentersCsv | lsf_templates.py:127 | the first `vina_centers*.csv`, else `vina_centers.csv` |
| LsfTemplates.ChildName | lsf_templates.py:123-124 | a child's name is the name joined |
| LsfTemplates.VinaFiles | lsf_templates.py:116-148 | two files: the header and docking body, and the submitter |
| LsfTemplates.OneJob | lsf_templates.py:143-147 | a job file and a submitter that submits it |
| LsfTemplates.VinaSubmitterRunsTheJob | lsf_templates.py:143-147 | the docking submitter submits the written job file |
| LigDirect.NextUniquePath | 0_LigDirect.py:12-20 | a free path: the base when free, else `base_k` for the least free `k` |
| LigDirect.CandidateInjective | 0_LigDirect.py:17 | distinct `k` give distinct candidates |
| LigDirect.EntryFor | 0_LigDirect.py:52-55 | the manifest entry keeps the record index |
| LigDirect.EntryStem | 0_LigDirect.py:55 | the stem is `<prefix><index padded>_<base name>` |
| LigDirect.FileStemInjective | 0_LigDirect.py:55 | equal stems come from equal indices |
| LigDirect.EntryNamesDistinct | 0_LigDirect.py:55-56 | distinct records get distinct file names |
| LigDirect.WrittenIndices | 0_LigDirect.py:47-50 | the written records are the parsed molecules, with 1-based increasing indices |
| LigDirect.WrittenComplete | 0_LigDirect.py:47-50 | every parsed molecule is written |
| LigDirect.CountAtMostLastIndex | 0_LigDirect.py:47-50 | the count never exceeds the last index |
| LigDirect.Place | 0_LigDirect.py:59-60 | the output path is fresh and named after the intended one |
| LigDirect.WriteRecords | 0_LigDirect.py:44-66 | one manifest row per molecule, fresh distinct files, exact names in an empty folder |
| LigDirect.SplitSdf | 0_LigDirect.py:34-68 | an unreadable input writes nothing and returns 0; otherwise the count is the manifest's length |
| LigDirect.OutDirName | 0_LigDirect.py:114-116 | the folder name has no path part |
| LigDirect.OutDirNameOfChild | 0_LigDirect.py:114 | a path is reduced to its last component |
| LigDirect.OutDirNameDropsSuffix | 0_LigDirect.py:115-116 | `base.ext` becomes `base` |
| LigDirect.OutDirArg | 0_LigDirect.py:103-111 | exit 2 exactly when no folder, no name and no typed tag is given |
| LigDirect.ResolveOutDir | 0_LigDirect.py:119-126 | a free folder is used; an existing one exits 1 unless `--unique` picks a fresh one |
| LigDirect.Run | 0_LigDirect.py:97-132 | exit 2 for a missing input or tag; exit 1 when the resolved folder exists without `--unique`, or when no molecule is written; otherwise done, in the resolved folder or its unique variant, with at least one molecule |
| PdbRecords.Slice | app.py:194 | Python's clamped slice |
| PdbRecords.ResName | app.py:194 | the residue name is upper case |
| PdbRecords.ResNameOfColumns | 3a_PDB2PDBQTbatch.py:47 | columns 18-20, stripped and upper-cased |
| PdbRecords.StreamKept | 3a_PDB2PDBQTbatch.py:44-50 | the copy loop writes exactly the kept lines in order |
| PdbToPdbqt.ResiduesToRemove | 3a_PDB2PDBQTbatch.py:24 | nonblank, upper-case names |
| PdbToPdbqt.RemoveListOf | 3a_PDB2PDBQTbatch.py:24 | a comma list of names gives exactly their upper-case forms |
| PdbToPdbqt.CopyKeeps | 3a_PDB2PDBQTbatch.py:44-50 | a line is copied exactly when it is not an atom record of a removed residue |
| PdbToPdbqt.CopyInOrder | 3a_PDB2PDBQTbatch.py:44-50 | the copy keeps the file's order |
| PdbToPdbqt.WebCleanIsRemoval | app.py:220-231 | the web clean-up equals removing every non-standard residue not kept |
| PdbToPdbqt.PdbFilesAre | 3a_PDB2PDBQTbatch.py:36-38 | converted exactly when listed and ending in `.pdb`; never `.pdbqt` |
| PdbToPdbqt.PdbFilesSorted | 3a_PDB2PDBQTbatch.py:36 | converted in increasing name order |
| PdbToPdbqt.OutputName | 3a_PDB2PDBQTbatch.py:53 | ends in `.converted.pdbqt` |
| PdbToPdbqt.OutputNameOfStem | 3a_PDB2PDBQTbatch.py:53 | `X.pdb` gives `X.converted.pdbqt` |
| PdbToPdbqt.ConvertedThenRenamed | 3a_PDB2PDBQTbatch.py:53 | the packager renames the output back to `X.pdbqt` |
| PdbToPdbqt.ConvertOne | 3a_PDB2PDBQTbatch.py:40-62 | one file: the cleaned copy, its paths and the converter's outcome |
| PdbToPdbqt.ConvertFolder | 3a_PDB2PDBQTbatch.py:36-62 | one attempt per PDB file in sorted order, whatever earlier attempts did |
| WebApp.JobName | app.py:75-77 | `<stamp>-` followed by the text before `@` |
| WebApp.JobNameOfAddress | app.py:76-77 | `user@domain` gives `<stamp>-user` |
| WebApp.ExtensionOf | app.py:110 | the lower-cased suffix without the dot |
| WebApp.Detect | app.py:117-123 | SDF first, then SMILES, then CSV, else folder |
| WebApp.FirstRel | app.py:96-103 | the first PDB, else the first PDBQT, under `Receptors/` |
| WebApp.UploadRejects | app.py:84-138 | status 400 exactly for a missing workspace, no file or an unknown kind, checked in that order |
| WebApp.ReceptorFileNamed | app.py:106-112 | a receptor file is saved under its own name, with its extension |
| WebApp.UploadReceptorFile | app.py:106-112 | the reply for a single receptor file |
| WebApp.WsFileAsWritten | app.py:160-169 | served exactly when both arguments are given, the path string starts with the workspace's and the file exists |
| WebApp.WsFile | app.py:160-169 | served exactly when the path lies inside the workspace and the file exists |
| WebApp.SiblingServedAsWritten | app.py:167 | a file in a sibling folder whose name extends the workspace's is served as written |
| WebApp.WsFileNarrower | app.py:167 | the corrected check only refuses more |
| WebApp.NonStandardHas | app.py:185-196 | exactly the atom records' residue names outside the 20 standard ones |
| WebApp.CollectResidues | app.py:189-196 | the reading loop collects exactly those names |
| WebApp.SortNames | app.py:197 | the names sorted strictly increasing |
| WebApp.Latest | app.py:181-183 | the newest file, the first of equals |
| WebApp.LatestIsNewest | app.py:182 | the head of a newest-first sort of the `*<ext>` matches is in the tree, is named `*<ext>` and no match is newer |
| WebApp.ResidueSource | app.py:180-185 | none exactly when no PDB file exists; otherwise a newest `*.cleaned.pdb` file when there is one, else a newest `*.pdb` file |
| WebApp.ListResidues | app.py:174-197 | a missing workspace gives 400; no PDB gives an empty list; else the sorted non-standard names |
| WebApp.CleanKeeps | app.py:220-231 | a line is kept exactly when it is not an atom record, or is standard, or is in the keep list |
| WebApp.CleanIdempotent | app.py:220-231 | cleaning twice equals cleaning once |
| WebApp.CleanInOrder | app.py:220-231 | the copy keeps the file's order |
| WebApp.LowercaseEntryIgnored | app.py:224-230 | a keep entry with a lower-case letter never matches |
| WebApp.KeepAllListed | app.py:220-231 | keeping every listed residue copies the file unchanged |
| WebApp.CleanSource | app.py:210-213 | a source exists exactly when a PDB file does, and it is a newest `*.pdb` file |
| WebApp.CleanReceptor | app.py:202-234 | 400 for a missing workspace or no PDB; else the cleaned copy written next to it |

## Left out

- Vina, `prepare_receptor4.py`, RDKit and Open Babel are not run. Their results are oracle parameters: exit code and output streams, a conversion flag, parsed molecule records.
- Concurrency is reduced to an arbitrary completion order. Locks, the live CSV's interleaving and process pools are not modelled.
- The progress bar, `[HEARTBEAT]` percentages, durations and timestamps are left out: they are floating point or clock values. Timestamps are passed in as text where a name needs them.
- Affinities are exact decimals. Python's `float` rounding is not modelled, and neither is the formatting of floats written back into CSV cells (`packager.py` centre values are kept as strings).
- CSV quoting, `DictReader` and `DictWriter` cell formatting are not modelled. Rows are maps or cell sequences.
- `4B_Parse_VinaResults.py`'s final table header names five columns while its rows carry four values. Only the header constant is modelled, because row cells are not.
- BatchDocking.PrepareRun: requires every `DictReader` row to carry the header's keys. Short rows, which Python fills with `None`, are not modelled.
- ServerDocks.CentersByReceptor: requires the chosen receptor folders to be distinct. The index parser returns distinct indices, and the candidate folders are distinct.
- ServerDocks.BuildJobs: same requirement as `CentersByReceptor`, for the same reason.
- Interactive prompts are replaced by their answers given as parameters:
  - `choose`, `choose_scope`, `prompt_int`, `input_default`, `show_indexed`;
  - `prompt_mode_block` in `1B_confgen_batch.py`, except that it returns its own column names;
  - the interactive branch of `3_Complete_batch_docking.py`;
  - the folder picker of `3a_PDB2PDBQTbatch.py`.
- Directory listings, `glob`, `rglob` and file modification times are inputs. Their order is taken as given, and sorted where the code sorts.
- `Path.resolve` and `os.path.abspath` are an oracle function.
- Character classes are exact only where stated, and other Unicode behaviour is not modelled:
  - `isalnum` (`Text.IsAlnum`) and `\s` (`Text.Whitespace`) are exact up to U+00FF.
  - `lower` and `upper` (`Text.LowerChar`, `Text.UpperChar`) change ASCII letters only. Python also maps Latin-1 and other letters (`'É'.lower()` is `'é'`), and `'ß'.upper()` is `'SS'`, two characters.
  - `isdigit` and `\d` (`Text.IsDigit`) accept only `0`-`9`. Python's `isdigit` is also true for other digits such as `'²'`. In `parse_index_list` (`1_ConformerGeneration.py:189-190`) such a piece passes `isdigit`, and then `int` raises `ValueError`; the model skips it instead.
- `write_lsf` in `1B_confgen_batch.py` (lines 152-169) is not modelled: a job is its file name and its command. That function splices the command into the template and then runs `str.format` over the whole text, so a target path holding `{` or `}` raises before the file is written, and a path holding `{name}` (or another template key) has it replaced by that value.
- The parse logs' per-target `[FOUND] <path>  poses=N` lines (`4A_Parse_VinaResults.py:197`, `4B_Parse_VinaResults.py:235`) are not modelled; only the heartbeat lines of the parse log are.
- A CSV record longer than its header cannot be represented in `Packager.CsvRow`, which maps only string keys. `DictReader` stores its extra cells under the `None` restkey, and `DictWriter` then raises on that row.
- `3a_PDB2PDBQTbatch.py` raises `FileNotFoundError` at start-up when `prepare_receptor4.py` is missing (lines 6-7). The script is modelled from the point where that file exists.
- LigDirect.EntryStem: a negative `--pad` makes Python's format specification raise; the model takes `pad` as a `nat` and does not model that error.
- `3B_ServerDocks.py` lines 1-63 are a fragment of older code and are not modelled. The commented-out duplicate of the docking script at `3_Complete_batch_docking.py:346-645` is not modelled either.
- `write_text`, `chmod`, `mkdir`, tree copies, zip packing, `fetch_pdb_and_prep` and the Flask routes for fetch, centre, build and download are not modelled. Authentication and the database are left out too.
- `api_upload` and the other routes raise when `jobname` is missing. That path is not modelled: the workspace's existence is a parameter.
- The `ligands_file` and `centers` upload kinds are modelled in `WebApp.Upload`, but no lemma states their replies beyond the rejection cases.
- `1_ConformerGeneration.py` conformer generation, embedding and PDBQT writing are left out: chemistry. Only task collection, folder resolution and the file type check are modelled.
- The interactive folder picker of `1_ConformerGeneration.py` (lines 370-380) is not modelled.

## Findings

| source | as written | input that shows it | evidently intended | confidence | as-written member | corrected member |
|---|---|---|---|---|---|---|
| 4A_Parse_VinaResults.py:215 | `args.no-sort` is read as `args.no - sort`, which raises `AttributeError` | any run that gets past parsing, with or without `--no-sort` | read `args.no_sort`, then sort by receptor and affinity | high, not executed | ParseVinaA.SortNeverReached | ParseVinaA.EndSorts |
| 1B_confgen_batch.py:306 | the command uses `args.csv_smiles_col` and `args.csv_id_col` | interactive mode 1 with SMILES and id columns chosen at the prompt | pass the chosen `csv_smiles_col`, `csv_id_col` | high, not executed | ConfgenBatch.InteractiveColumnsLost | ConfgenBatch.CsvCommandCarriesColumns |
| packager.py:59-62 | `DictWriter` with the default `extrasaction="raise"` | an existing CSV whose first row has an extra column, such as `TAG` | ignore extra keys so every row is rewritten | medium, not executed | Packager.ExtraColumnEmptiesFile | Packager.IgnoringExtrasKeepsRows |
| app.py:167 | containment is a string prefix test | workspace `/tmp/ws1` and `rel=../ws10/f` | the resolved path must lie inside the workspace folder | high, not executed | WebApp.SiblingServedAsWritten | WebApp.WsFileNarrower |
