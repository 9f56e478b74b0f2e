# Prompt and documentation sync checks, in Dafny

This project models the consistency checks of a prompt and documentation sync
toolkit, and proves properties of them. The toolkit compiles a runtime prompt
from a YAML prompt specification and its patches. It scores how well the
compiled prompt covers a checklist of IDs. It checks that bracketed IDs such as
`[REQ-001]` resolve, that no ID vanished since the last run, that headings
match a golden copy, and that required techniques are defined. It also finds
the Python modules and artifacts a change impacts.

There is one module per checking script. Each module is written in the form of
its script:

- `repo_indexer.dfy` (`RepoIndexer`). The module dependency graph is a
  `DiGraph` class filled in loops. It provides the topological order (Kahn's
  algorithm, with an explicit error for a cycle), breadth-first reachability
  and the impacted modules.
- `impact_analysis.dfy` (`ImpactAnalysis`). This covers modification-time
  staleness over a file system given as a map, and the artifact table's prefix
  impact mapping.
- `sync_orchestrator.dfy` (`SyncOrchestrator`). This covers coverage scoring,
  the structural rules, the rebuild decision and the verdict. The `Workspace`
  class holds the runtime prompt, the lock file and the badge, and one run
  rewrites them.
- `prompt_coverage_checker.dfy` (`PromptCoverage`). This covers per-category
  coverage, test coverage and the per-item rows.
- `eval_harness.dfy` (`EvalHarness`). This covers the fixed structural checks.
- `fingerprint_sync.dfy` (`FingerprintSync`). This covers the ID fingerprint
  of the outputs and the dropped-ID comparison. The `SnapshotStore` class holds
  the snapshot that each run overwrites.
- `id_integrity_check.dfy` (`IdIntegrity`). This covers the defined IDs, the
  prefix rules and the per-file report of unresolved IDs.
- `golden_diff.dfy` (`GoldenDiff`). This covers the normalised heading lists
  and their comparison.
- `compile_prompt.dfy` (`CompilePrompt`). This covers the id index over the
  section tree, the four patch operations and the numbered Markdown rendering.
- `cross_domain.dfy` (`CrossDomain`). This is the technique cross-check, a
  chain of guarded outcomes.

Shared modules:

- `Wrappers` holds `Option` and `Result`.
- `Text` holds string predicates: prefix, substring, ASCII lower-casing,
  Python whitespace stripping and collapsing, `splitlines`, `join` and decimal
  numerals.
- `Ordering` holds code-point order, `pathlib` path order and sorting a set
  into a strictly increasing list.
- `IdPattern` is the scanner for `\[([A-Z]{2,4}-\d{3,})\]`, written over
  characters.
- `Checklist` holds checklist entries, the present/missing split and ratios.

How the environment is modelled:

- File contents, path lists, change sets and parsed YAML/JSON documents are
  inputs. A file that does not exist is `None`, or a path missing from the disk
  map.
- Paths are strings relative to the repository root.
- SHA-256 is a function parameter `hash`.
- Modification times are naturals.
- Coverage ratios are `real`s.

## Model

| member | source | states |
|---|---|---|
| RepoIndexer.FirstSegment | AgenticSyncKit/agents/repo_indexer.py:34-37 | the first segment of a dotted name is a prefix of it and contains no '.' |
| RepoIndexer.ModuleNameShape | AgenticSyncKit/agents/repo_indexer.py:21-23 | the module name is the path with every '/' turned into '.', shortened by exactly three characters when the path, with '/' turned into '.', ends in ".py" (so always when the path itself ends in ".py"), otherwise unchanged in length; it contains no '/' |
| RepoIndexer.NamesOfMembers | AgenticSyncKit/agents/repo_indexer.py:31-37 | a name is imported by a statement list exactly when one of its statements contributes it |
| RepoIndexer.ImportedNamesAreFirstSegments | AgenticSyncKit/agents/repo_indexer.py:25-38 | every imported name is undotted; an unparsable file and `from . import` contribute nothing |
| RepoIndexer.Indexer.ImportsInFile | AgenticSyncKit/agents/repo_indexer.py:25-38 | the set built in the loop is the file's imported names, all undotted |
| RepoIndexer.Indexer.IterPyFiles | AgenticSyncKit/agents/repo_indexer.py:13-19 | the file list is strictly increasing in path order (so it has no duplicates) and holds exactly the .py files that match some code glob |
| RepoIndexer.DiGraph.AddNode | AgenticSyncKit/agents/repo_indexer.py:45 | adds the node once, at the end, if it is new; sets its file attribute; keeps the edges and the graph valid |
| RepoIndexer.DiGraph.AddEdge | AgenticSyncKit/agents/repo_indexer.py:50 | adds the edge and any endpoint that is not yet a node |
| RepoIndexer.Indexer.AddModuleNodes | AgenticSyncKit/agents/repo_indexer.py:43-45 | the nodes are the files' module names in order of first occurrence, each tagged with the last file of that name |
| RepoIndexer.NodeFilesSound | AgenticSyncKit/agents/repo_indexer.py:43-45 | exactly the module names have a file, and that file is one of the files and has that module name |
| RepoIndexer.NodeFilesTag | AgenticSyncKit/agents/repo_indexer.py:43-45 | every node has a file, and distinct nodes have distinct files |
| RepoIndexer.Indexer.AddImportEdges | AgenticSyncKit/agents/repo_indexer.py:46-50 | the new edges are exactly (u, m) for the imported names u that are nodes; nodes and files are unchanged |
| RepoIndexer.Indexer.BuildGraph | AgenticSyncKit/agents/repo_indexer.py:40-51 | the graph is valid and has those nodes and files, and (u, v) is an edge exactly when u is a node imported by a file of module v |
| RepoIndexer.EdgeSourceUndotted | AgenticSyncKit/agents/repo_indexer.py:46-50 | no edge starts at a dotted name |
| RepoIndexer.Indexer.TopoOrder | AgenticSyncKit/agents/repo_indexer.py:53-54 | an Ok result lists every node once with every edge pointing forward; an error means that no such order exists |
| RepoIndexer.CyclicHasNoOrder | AgenticSyncKit/agents/repo_indexer.py:53-54 | a graph with a cycle has no topological order |
| RepoIndexer.Indexer.HasPath | AgenticSyncKit/agents/repo_indexer.py:78 | breadth-first search answers true exactly when a path of zero or more edges leads from src to dst |
| RepoIndexer.Indexer.FileToModule | AgenticSyncKit/agents/repo_indexer.py:68 | the inverted map has exactly the node files as keys, each mapped to a node with that file |
| RepoIndexer.Indexer.ChangedModules | AgenticSyncKit/agents/repo_indexer.py:69-74 | the seeds are the non-empty modules whose file changed; changed files that are no node's file are ignored |
| RepoIndexer.Indexer.ReachedFromAny | AgenticSyncKit/agents/repo_indexer.py:77-79 | true exactly when some seed reaches the module |
| RepoIndexer.Indexer.ImpactedModules | AgenticSyncKit/agents/repo_indexer.py:64-80 | empty for an empty change set; otherwise the seeds together with every node reachable from a seed |
| RepoIndexer.EmptyChangeImpactsNothing | AgenticSyncKit/agents/repo_indexer.py:66-67 | with no change there are no seeds and nothing is reached |
| RepoIndexer.ImpactedBetweenSeedsAndNodes | AgenticSyncKit/agents/repo_indexer.py:75-79 | seeds are nodes, and a node is reached exactly when it is reachable from a seed (seeds ⊆ impacted ⊆ nodes) |
| RepoIndexer.Indexer.WriteArtifacts | AgenticSyncKit/agents/repo_indexer.py:82-91 | the record lists each node with its file, exactly the graph's edges, a topological order and the impacted modules sorted; with a cycle it is an error |
| ImpactAnalysis.SetMax | impact_analysis.py:38 | the maximum bounds every element and is one of them; it is 0 for the empty set |
| ImpactAnalysis.NewestTimeCases | impact_analysis.py:31-39 | a file's own time; for a directory the newest contained file, or 0 when it holds none; 0 for a missing path |
| ImpactAnalysis.NewestUnder | impact_analysis.py:31-39 | the loop over the files keeps the newest time seen, which is the newest time of the path |
| ImpactAnalysis.NewestOfExceeds | impact_analysis.py:49-53 | the newest input is later than t exactly when some input's newest time is |
| ImpactAnalysis.MissingOutputIssue | impact_analysis.py:45-48 | a missing output is reported exactly when one of its inputs exists, and otherwise nothing is reported |
| ImpactAnalysis.StaleIssue | impact_analysis.py:49-54 | an existing output is stale exactly when some input is strictly newer; equal times pass |
| ImpactAnalysis.ArtifactIssue | impact_analysis.py:44-54 | one artifact's issue as the two lemmas above characterise it |
| ImpactAnalysis.CheckMtime | impact_analysis.py:41-55 | the issues of the artifacts in table order |
| ImpactAnalysis.InputsPrefixChange | impact_analysis.py:69-72 | true exactly when some changed path starts with one of the artifact's inputs |
| ImpactAnalysis.MapImpacts | impact_analysis.py:66-73 | exactly the outputs of impacted artifacts; a subset of the two artifact keys; empty with no changes |
| ImpactAnalysis.OutputsChanged | impact_analysis.py:75-77 | exactly the changed paths that are artifact outputs |
| ImpactAnalysis.RunChecks | impact_analysis.py:79-94 | the staleness issues first, then one distinct issue for each impacted artifact not itself changed; exit 1 exactly when there is an issue |
| ImpactAnalysis.PassesIff | impact_analysis.py:86-92 | the check passes exactly when nothing is missing or stale and every impacted artifact was changed too |
| ImpactAnalysis.NoChangesNoImpact | impact_analysis.py:83 | no artifact is impacted by an empty change set |
| Checklist.CategoryIds | sync_orchestrator.py:33-35 | the ids kept are non-empty and at most one per entry |
| Checklist.CategoryIdsMembers | prompt_coverage_checker.py:17-19 | an id is kept exactly when an entry carries it and it is non-empty |
| Checklist.CategoryIdsAppend | prompt_coverage_checker.py:17-19 | ids are kept in entry order: the ids of a concatenation are the concatenated ids |
| Checklist.SplitMembers | sync_orchestrator.py:28-30 | an id is on the present side exactly when its token (bracketed, or verbatim) occurs in the text, and on the missing side exactly when it does not |
| Checklist.SplitSizes | sync_orchestrator.py:31 | present + missing = total |
| Checklist.SplitAppend | sync_orchestrator.py:28-30 | the split keeps the order of the ids |
| Checklist.SplitIds | sync_orchestrator.py:28-30 | the two lists appended in the loop are the present and the missing ids |
| Checklist.Ratio | sync_orchestrator.py:31 | covered/total, in [0, 1]; 1.0 exactly when everything is covered, which includes total = 0 |
| Checklist.PassedIffAllFound | sync_orchestrator.py:39-40 | a test passes exactly when every reference occurs verbatim in the text |
| Checklist.FoundPhrasesMembers | sync_orchestrator.py:55-57 | a phrase is found exactly when it is listed and occurs in the text |
| SyncOrchestrator.CovFor | sync_orchestrator.py:25-32 | the present and missing ids in order, present + missing = total, and the ratio in [0, 1] |
| SyncOrchestrator.TestResultOf | sync_orchestrator.py:39-40 | a test keeps its id and passes exactly when all its references occur |
| SyncOrchestrator.CountPassed | sync_orchestrator.py:41 | at most the number of tests, and equal to it exactly when every test passed |
| SyncOrchestrator.CalcCoverage | sync_orchestrator.py:23-48 | each category holds its present and missing ids by the bracketed token, with exact counts and ratio; each test holds its result for the text; the tests summary agrees with that detail |
| SyncOrchestrator.BannedIssues | sync_orchestrator.py:55-57 | one issue per found phrase, and the issues are exactly the found phrases, as banned-phrase issues |
| SyncOrchestrator.StructuralChecks | sync_orchestrator.py:50-58 | the text length, and the length issue followed by the phrase issues |
| SyncOrchestrator.StructuralIssuesIff | sync_orchestrator.py:53-57 | a length issue exactly when max_chars is set, non-zero and exceeded; a phrase issue exactly for a listed phrase found in the lower-cased text; no issue exactly when neither happens |
| SyncOrchestrator.OverallOkIff | sync_orchestrator.py:106-109 | the verdict holds exactly when each category reaches the threshold, every test passed and there is no structural issue |
| SyncOrchestrator.VerdictIff | sync_orchestrator.py:96-109 | for a report scored from the text, the verdict holds exactly when each category's share of present bracketed ids reaches the threshold, every reference of every test occurs, no truthy length limit is exceeded and no listed phrase occurs in the lower-cased text |
| SyncOrchestrator.NonEmptyPaths | sync_orchestrator.py:67 | the patch paths kept are exactly the non-empty ones |
| SyncOrchestrator.SameInputsSameHash | sync_orchestrator.py:77-78 | the input hash map depends only on which input files exist and on their texts |
| SyncOrchestrator.SameHashSameInputs | sync_orchestrator.py:77-78 | for a collision-free hash, equal hash maps mean that no input file appeared, disappeared or changed |
| SyncOrchestrator.RebuildIff | sync_orchestrator.py:79-89 | no rebuild exactly when the lock exists with the same hash map and the runtime prompt exists; a missing lock or runtime prompt forces one |
| SyncOrchestrator.Assess | sync_orchestrator.py:96-146 | the report scored from the text and checklist, the structural issues of the text, the verdict from both, and the badge with the four ratios, the structural flag and the pass/fail status |
| SyncOrchestrator.Workspace.Run | sync_orchestrator.py:60-160 | rebuilds exactly when needed; scores the (new) runtime prompt against the checklist by the categories' bracketed ids and the tests' references; the structural issues of that text; the verdict from both; the badge holding the four ratios, the structural flag and the status; overwrites the lock with the new hashes whatever the verdict; exits 1 under --ci or --check exactly when the verdict fails |
| SyncOrchestrator.RerunSkipsCompile | sync_orchestrator.py:151-156 | right after a run, an unchanged input set needs no rebuild |
| SyncOrchestrator.RebuildIffInputsChanged | sync_orchestrator.py:76-94 | after a run, a later run with the runtime prompt present recompiles exactly when an input file appeared, disappeared or changed (collision-free hash) |
| PromptCoverage.SearchToken | prompt_coverage_checker.py:12-14 | literal substring search: the empty token is always found, and a found token is no longer than the text |
| PromptCoverage.CollectIdsAndRefs | prompt_coverage_checker.py:16-26 | the three categories' truthy ids in order, and each test with its id and its references, which default to none |
| PromptCoverage.CoverageForCategory | prompt_coverage_checker.py:28-36 | the category name, the present and missing ids by the bracketed token, present + missing = total, the ratio, and 1.0 on an empty list |
| PromptCoverage.TestRowOf | prompt_coverage_checker.py:41-45 | the missing references are exactly those not found, and the test passed exactly when none is missing |
| PromptCoverage.PassedCount | prompt_coverage_checker.py:47 | at most the number of rows, and equal to it exactly when every row passed |
| PromptCoverage.FailedIds | prompt_coverage_checker.py:49 | failed + passed = total |
| PromptCoverage.FailedIdsMembers | prompt_coverage_checker.py:49 | an id is listed as failed exactly when some test row that did not pass carries it |
| PromptCoverage.TestsCoverage | prompt_coverage_checker.py:38-49 | one row per test; the summary's total, present, ratio and failed ids |
| PromptCoverage.TestsRatioOneIff | prompt_coverage_checker.py:46-48 | the tests ratio is 1.0 exactly when every reference of every test occurs |
| PromptCoverage.CategoryRows | prompt_coverage_checker.py:62-65 | one row per id in order, found exactly when the id is on the present side of the category's split, and not found exactly when it is on the missing side |
| PromptCoverage.AppendCategoryRows | prompt_coverage_checker.py:63-65 | the inner loop appends those rows |
| PromptCoverage.TestRowsFoundIff | prompt_coverage_checker.py:66-67 | a test row is found exactly when every reference of its test occurs in the text |
| PromptCoverage.FoundCountIsPassed | prompt_coverage_checker.py:66-67 | the found test rows number the passed tests of the summary |
| PromptCoverage.PerItemRows | prompt_coverage_checker.py:61-67 | the category rows in category order, then the test rows |
| PromptCoverage.FoundCountIsPresent | prompt_coverage_checker.py:62-65 | a category's found rows number its present ids |
| PromptCoverage.CheckCoverage | prompt_coverage_checker.py:51-67 | the three category summaries in order with their splits, counts and ratios; one test row per checklist test with its references checked; the tests summary with total, passes, ratio and failed ids; the per-item rows of the three categories and then the tests |
| PromptCoverage.TableAgreesWithSummary | prompt_coverage_checker.py:56-67 | the per-item table has one row per id and per test, and its found rows number the present ids plus the passed tests of the summary table |
| EvalHarness.RunStructuralChecks | eval_harness.py:11-21 | the reported length is the text length, and the issues are built in list order |
| EvalHarness.IssuesIff | eval_harness.py:15-20 | the length issue exactly when the text is longer than 15000; a phrase issue exactly for a banned phrase in the lower-cased text; empty exactly when neither |
| EvalHarness.MessageInjective | eval_harness.py:15-20 | distinct issues print distinct messages |
| IdPattern.IdThenCloseSound | fingerprint_sync.py:10 | a match at a bracket is an ID of the pattern's shape, followed by ']' |
| IdPattern.IdThenCloseComplete | fingerprint_sync.py:10 | every ID of that shape followed by ']' is matched |
| IdPattern.MatchAtSound | fingerprint_sync.py:10 | a match at index i is a well-shaped ID whose bracketed form occurs at i |
| IdPattern.MatchAtComplete | fingerprint_sync.py:10 | every bracketed well-shaped ID occurring at i is the match at i |
| IdPattern.NoStartInsideMatch | fingerprint_sync.py:10 | no other bracketed ID starts inside a match (the scan may skip past it) |
| IdPattern.FindAllMembers | fingerprint_sync.py:16 | the left-to-right scan from i finds exactly the well-shaped IDs occurring bracketed at or after i |
| IdPattern.FoundIdsIff | fingerprint_sync.py:16 | an ID is found exactly when it has the shape and its bracketed form occurs in the text |
| IdPattern.ScanIds | fingerprint_sync.py:15-16 | the found IDs as a strictly increasing (sorted, duplicate-free) list |
| FingerprintSync.EntryOf | fingerprint_sync.py:21-23 | an entry holds the text's hash and its sorted unique IDs |
| FingerprintSync.FingerprintOfKeys | fingerprint_sync.py:18-24 | an output has an entry exactly when its file exists |
| FingerprintSync.FingerprintOfEntry | fingerprint_sync.py:18-24 | an existing output's entry is the entry of its text |
| FingerprintSync.MakeFp | fingerprint_sync.py:18-24 | the loop fills the fingerprint of the outputs |
| FingerprintSync.MakeFpEntries | fingerprint_sync.py:18-24 | for each of the two outputs: an entry exactly when it exists, holding its text's entry |
| FingerprintSync.Dropped | fingerprint_sync.py:36-38 | the old IDs not among the new ones, sorted and without duplicates |
| FingerprintSync.DroppedEmptyIff | fingerprint_sync.py:38-39 | nothing dropped exactly when every old ID is still present |
| FingerprintSync.AdditionsNeverFlagged | fingerprint_sync.py:38 | a present ID is never reported dropped |
| FingerprintSync.NoRecordDropsNothing | fingerprint_sync.py:37 | an output without a previous record drops nothing |
| FingerprintSync.ProblemsMembers | fingerprint_sync.py:34-40 | a problem is reported exactly for a current output that lost IDs, carrying those IDs; outputs absent now are not compared |
| FingerprintSync.ProblemsEmptyIff | fingerprint_sync.py:34-47 | no problem, and so exit 0, exactly when no current output lost an ID |
| FingerprintSync.SelfComparisonPasses | fingerprint_sync.py:35-40 | a fingerprint compared with itself reports nothing |
| FingerprintSync.SnapshotStore.Run | fingerprint_sync.py:26-47 | the problems against the previous snapshot (empty when missing or unparsable), then the snapshot overwritten with the new fingerprint |
| FingerprintSync.RerunPasses | fingerprint_sync.py:41 | a run right after a run on the same outputs reports nothing |
| IdIntegrity.UnionOfMembers | id_integrity_check.py:13-39 | an id is in the union exactly when one of the sources contributes it |
| IdIntegrity.DefinedIdsMembers | id_integrity_check.py:13-39 | an id is defined exactly when an item of an existing source document, of an ADR file or of a checklist category carries it |
| IdIntegrity.AddItemIds | id_integrity_check.py:23-24 | the inner loop adds exactly the items' ids |
| IdIntegrity.GatherDefinedIds | id_integrity_check.py:13-39 | the set filled in the loops is the defined ids |
| IdIntegrity.PrefixOfId | id_integrity_check.py:61 | the prefix of a well-shaped ID is its run of capitals |
| IdIntegrity.UnresolvedIff | id_integrity_check.py:61-65 | unresolved exactly when not defined and the prefix is not allowed or is strict |
| IdIntegrity.ResolvedCases | id_integrity_check.py:61-65 | a defined ID never fails; an allowed, non-strict prefix always passes; those prefixes are SEC, OBJ, PRC, ROL, INP, OUT, GRD, REF, CHG |
| IdIntegrity.StrictExample | id_integrity_check.py:64-65 | an undefined REQ ID is unresolved |
| IdIntegrity.UnknownPrefixExample | id_integrity_check.py:62-63 | an undefined ID with an unknown prefix is unresolved |
| IdIntegrity.PseudoPrefixExample | id_integrity_check.py:62-64 | an undefined SEC ID passes |
| IdIntegrity.UnresolvedIdsMembers | id_integrity_check.py:58-65 | a file's unresolved IDs are the well-shaped unresolved IDs occurring bracketed in it |
| IdIntegrity.UnresolvedInFile | id_integrity_check.py:59-65 | the list built holds exactly the file's unresolved IDs |
| IdIntegrity.ExistingFiles | id_integrity_check.py:48-52 | exactly the output files that exist |
| IdIntegrity.ScannedFiles | id_integrity_check.py:48-52 | the scanned files are the existing outputs, in order |
| IdIntegrity.FilesWithUnresolvedMembers | id_integrity_check.py:58-65 | a file is reported exactly when it has an unresolved ID |
| IdIntegrity.ReportFiles | id_integrity_check.py:58-75 | one report entry per file with unresolved IDs, carrying them sorted and unique |
| IdIntegrity.Check | id_integrity_check.py:45-78 | the report over the existing outputs against the defined ids, and its exit code |
| IdIntegrity.PassesIff | id_integrity_check.py:71-78 | the report is empty, and the check exits 0, exactly when no scanned file has an unresolved ID |
| GoldenDiff.NormalizeIdempotent | golden_diff.py:11 | normalising a heading twice gives what normalising it once gives |
| GoldenDiff.NormalizeKeepsHash | golden_diff.py:11 | a normalised heading still starts with '#' |
| GoldenDiff.HeadingsOfAppend | golden_diff.py:7-13 | the headings of concatenated lines are the concatenated headings (document order) |
| GoldenDiff.NonHeadingIrrelevant | golden_diff.py:7-13 | inserting or removing a non-heading line leaves the headings unchanged |
| GoldenDiff.HeadingsOfShape | golden_diff.py:7-13 | every heading starts with '#' and is already normalised |
| GoldenDiff.HeadingsWithAnchors | golden_diff.py:7-13 | the list appended in the loop is the normalised '#' lines in order |
| GoldenDiff.CompareIgnoresNonHeadings | golden_diff.py:15-30 | a compiled file that differs only in a non-heading line compares alike against any golden copy |
| GoldenDiff.Run | golden_diff.py:32-42 | the SRS comparison and, when both files exist, the runtime-prompt one; exit 1 exactly when one fails |
| CompilePrompt.IndexSections | compile_prompt.py:9-17 | the recursive loop leaves the index of the preorder visit: each truthy id mapped to its section, later visits winning |
| CompilePrompt.IndexFoldLast | compile_prompt.py:11-16 | an id is indexed exactly when a visited section carries it, and it maps to the last such section |
| CompilePrompt.PreorderSound | compile_prompt.py:11-16 | every visited entry is the section at its path |
| CompilePrompt.PreorderComplete | compile_prompt.py:11-16 | every section of the tree is visited |
| CompilePrompt.IndexOfSound | compile_prompt.py:11-16 | an indexed path leads to a section carrying that id |
| CompilePrompt.IndexOfComplete | compile_prompt.py:11-16 | every section with a truthy id is reachable through the index |
| CompilePrompt.SetFieldEffect | compile_prompt.py:33-39 | setting a field changes that field of the targeted section only, and never the tree's shape |
| CompilePrompt.PatchSkipped | compile_prompt.py:27-41 | an unknown target or an unknown op changes nothing |
| CompilePrompt.PatchEffect | compile_prompt.py:31-41 | replace, append, prepend and remove set the targeted field (default "content", op default "replace") as described, and nothing else changes |
| CompilePrompt.ApplyAllKeepsShape | compile_prompt.py:19-42 | patches never change the tree's shape, so the index built once stays valid |
| CompilePrompt.ApplyPatches | compile_prompt.py:19-42 | one index, then each patch in list order |
| CompilePrompt.Hashes | compile_prompt.py:50 | n '#' characters, none for n <= 0 |
| CompilePrompt.RenderMd | compile_prompt.py:44-57 | the text the recursive appending loop joins is the rendering |
| CompilePrompt.RenderIsLines | compile_prompt.py:44-57 | nested renderings joined by newlines are the flat list of the children's lines |
| CompilePrompt.LinesArePreorder | compile_prompt.py:44-57 | the document lines are, section by section in preorder, a heading and the content lines |
| CompilePrompt.RenderDocument | compile_prompt.py:44-57 | the document is each section in preorder as a heading at its depth, numbered by its dotted 1-based path, then its stripped content and a blank line when that is not empty |
| CrossDomain.TechniqueIdsMembers | cross_domain_technique_check.py:29-30 | a technique id is defined exactly when an item carries it and it is non-empty |
| CrossDomain.UndefinedMembers | cross_domain_technique_check.py:31 | a required technique is undefined exactly when it is not a defined id |
| CrossDomain.UndefinedEmptyIff | cross_domain_technique_check.py:31-34 | nothing is undefined exactly when every required technique is defined |
| CrossDomain.AbsentIds | cross_domain_technique_check.py:39-42 | exactly the required ids the SRS does not contain; empty exactly when it contains them all |
| CrossDomain.Check | cross_domain_technique_check.py:14-47 | skipped exactly when the spec is absent; fails exactly when the techniques file is absent; passes on an empty requirement; lists exactly the undefined techniques, or else exactly the ids absent from an existing SRS |
| CrossDomain.PassesIff | cross_domain_technique_check.py:16-47 | exit 0 exactly when there is no spec, or the techniques file exists, every required id is defined and, when the SRS exists, mentioned |
| CrossDomain.MoreTechniquesKeepPassing | cross_domain_technique_check.py:29-34 | defining more techniques never makes a passing check fail |
| CrossDomain.MissingSrsIsLenient | cross_domain_technique_check.py:37-45 | removing the SRS never makes a passing check fail; a missing SRS only warns |

## Left out

- File-system and version-control I/O is not modelled: reading and writing files, `rglob`, `glob`, `git diff`, and `changed_files` in both scripts. File contents, path lists and change sets are inputs. The `fnmatch` glob test is a parameter of `RepoIndexer.Indexer.IterPyFiles`.
- `ast.parse` is not modelled. Each file's parse result is an input, either a list of import statements or unparsable. No AST walk is modelled.
- YAML, JSON and CSV (`pandas`) handling is left out. Documents are given parsed. A JSON snapshot or lock file that is not an object is not a case, because the script would crash on it. A missing or unparsable one is read as empty.
- All YAML item and section fields are strings. YAML `null` or non-string values are not modelled, and neither is `str(val)` of a non-string patch value. `required_techniques` is modelled only as a list or absent.
- CompilePrompt.PatchEffect: a patch whose field is "children" (which replaces the list of children in the source) is modelled as setting a string field. The tree's children are not replaced.
- CompilePrompt.ApplyPatches: the in-place mutation of shared section objects is modelled on paths into a tree value. This is faithful because the index is built once and patches never change the tree's shape. Object identity is not modelled.
- The `main` functions of `compile_prompt.py`, `prompt_coverage_checker.py` and `eval_harness.py` are left out, beyond the parts named in the table. That means argument handling, file loading, CSV writing and printing.
- The compile subprocess in the orchestrator is left out. The compiled text is a parameter of SyncOrchestrator.Workspace.Run.
- The sync report's Markdown text, timestamps, the lock's `last_run` and the badge's JSON formatting are left out.
- Printed warnings and messages are not modelled as output. The message functions cover only the reported issue strings.
- SyncOrchestrator.Workspace.Run: the checklist is read after the compile step. Here it is an input.
- The behavioural tests and the model adapter of the evaluation harness are left out, because they call an external model.
- Python sets have no defined iteration order. Loops over sets choose elements arbitrarily, and every contract holds whatever the choice. Where the source output order follows set order (the impact issues), only membership and distinctness are stated.
- `\d` matches ASCII digits only, and `str.lower` lower-cases ASCII letters only. Python's Unicode digit and case tables are not modelled. `\s` and `strip` use Python's full `str.isspace` set, including the Unicode spaces.
- RepoIndexer.Indexer.TopoOrder: within one generation of Kahn's algorithm, nodes come in node order. networkx orders them by when their in-degree reaches zero, which follows adjacency order, so the list can differ from the program's while still being a topological order.
- RepoIndexer.Indexer.WriteArtifacts: the edges are a set, so the order of the `edges` list (adjacency order in networkx) is not modelled, and the topological order is the one TopoOrder gives.
- Floating-point percentages and the IEEE behaviour of the ratios are not modelled. Ratios are exact reals.
- Modification times are naturals.
- SHA-256 is an arbitrary function `hash`. Only SyncOrchestrator.SameHashSameInputs and SyncOrchestrator.RebuildIffInputsChanged assume it is collision-free, as a precondition.
- Paths are root-relative strings, and `pathlib` normalisation is not modelled. A file whose stored path differs from the changed path only by spelling (such as `./a.py`) is treated as different.
- Python's process exit calls are not modelled. Exit statuses are returned values.
