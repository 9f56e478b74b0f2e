/**
 * The prompt sync orchestrator (sync_orchestrator.py): decide whether the
 * runtime prompt must be recompiled from the hashes of its inputs, score the
 * prompt's checklist coverage, apply the structural rules, combine everything
 * into a pass/fail verdict, and overwrite the lock file on every run.
 *
 * SHA-256 is the parameter `hash`; the compiler subprocess is represented by
 * the text it writes (`compiled`); the lock file is kept parsed, with None
 * standing for a lock file that is missing or not valid JSON.
 */
module SyncOrchestrator {
  import opened Wrappers
  import opened Text
  import opened Checklist

  /** The record `cov_for` returns for one category. */
  datatype Coverage = Coverage(total: nat, present: nat, coverage: real, presentIds: seq<string>, missing: seq<string>)

  datatype TestResult = TestResult(id: Option<string>, missing: seq<string>, passed: bool)

  datatype TestsSummary = TestsSummary(total: nat, present: nat, coverage: real)

  datatype CoverageReport = CoverageReport(
    invariants: Coverage,
    techniques: Coverage,
    outputs: Coverage,
    tests: TestsSummary,
    testsDetail: seq<TestResult>)

  /** `cov_for(ids, wrap)`: split the ids by whether their token occurs in the text. */
  method CovFor(text: string, ids: seq<string>, wrap: bool) returns (c: Coverage)
    ensures c.presentIds == Split(text, ids, wrap, true) && c.missing == Split(text, ids, wrap, false)
    ensures c.total == |ids| && c.present == |c.presentIds| && c.present + |c.missing| == c.total
    ensures c.present <= c.total && c.coverage == Ratio(c.present, c.total)
    ensures 0.0 <= c.coverage <= 1.0
  {
    var present, missing := SplitIds(text, ids, wrap);
    SplitSizes(text, ids, wrap);
    c := Coverage(|ids|, |present|, Ratio(|present|, |ids|), present, missing);
  }

  /** One entry of `tests`: the references not found verbatim, and whether there are none. */
  function TestResultOf(text: string, t: TestEntry): (r: TestResult)
    ensures r.id == t.id
    ensures r.passed <==> forall ref :: ref in Refs(t) ==> Found(text, ref)
  {
    PassedIffAllFound(text, Refs(t));
    var missing := MissingRefs(text, Refs(t));
    TestResult(t.id, missing, |missing| == 0)
  }

  /** `sum(1 for t in tests if t["passed"])`. */
  function CountPassed(rs: seq<TestResult>): (n: nat)
    ensures n <= |rs|
    ensures n == |rs| <==> forall k :: 0 <= k < |rs| ==> rs[k].passed
  {
    if rs == [] then 0
    else CountPassed(rs[..|rs| - 1]) + (if rs[|rs| - 1].passed then 1 else 0)
  }

  /** The tests summary agrees with the detail it is computed from. */
  ghost predicate SummaryOf(s: TestsSummary, detail: seq<TestResult>) {
    && s.total == |detail|
    && s.present == CountPassed(detail)
    && s.coverage == Ratio(s.present, s.total)
  }

  /** A category record holds the ids split by their token, their counts and the ratio. */
  ghost predicate CoverageOf(c: Coverage, text: string, ids: seq<string>) {
    && c.presentIds == Split(text, ids, true, true) && c.missing == Split(text, ids, true, false)
    && c.total == |ids| && c.present == |c.presentIds| && c.present + |c.missing| == c.total
    && c.coverage == Ratio(c.present, c.total)
  }

  /** What `calc_coverage` computes: each category scored by its bracketed ids, and each test by its references. */
  ghost predicate ScoredBy(r: CoverageReport, text: string, chk: Checklist) {
    && CoverageOf(r.invariants, text, CategoryIds(chk.invariants))
    && CoverageOf(r.techniques, text, CategoryIds(chk.techniques))
    && CoverageOf(r.outputs, text, CategoryIds(chk.outputs))
    && |r.testsDetail| == |chk.tests|
    && (forall k :: 0 <= k < |chk.tests| ==> r.testsDetail[k] == TestResultOf(text, chk.tests[k]))
    && SummaryOf(r.tests, r.testsDetail)
  }

  /** `calc_coverage`: the three categories with bracketed ids, and the tests with verbatim references. */
  method CalcCoverage(text: string, chk: Checklist) returns (r: CoverageReport)
    ensures ScoredBy(r, text, chk)
  {
    var inv := CovFor(text, CategoryIds(chk.invariants), true);
    var tec := CovFor(text, CategoryIds(chk.techniques), true);
    var out := CovFor(text, CategoryIds(chk.outputs), true);
    var tests: seq<TestResult> := [];
    for k := 0 to |chk.tests|
      invariant |tests| == k
      invariant forall j :: 0 <= j < k ==> tests[j] == TestResultOf(text, chk.tests[j])
    {
      tests := tests + [TestResultOf(text, chk.tests[k])];
    }
    var passed := CountPassed(tests);
    var summary := TestsSummary(|tests|, passed, Ratio(passed, |tests|));
    r := CoverageReport(inv, tec, out, summary, tests);
  }

  /** The `structural` section of the manifest. */
  datatype StructuralRules = StructuralRules(maxChars: Option<int>, bannedPhrases: seq<string>)

  datatype StructuralIssue = TooLong(maxChars: int, length: nat) | BannedPhrase(phrase: string)

  function IntToString(n: int): string {
    if n < 0 then "-" + NatToString(-n) else NatToString(n)
  }

  function IssueMessage(e: StructuralIssue): string {
    match e
    case TooLong(m, n) => "Prompt too long (> " + IntToString(m) + " chars): " + NatToString(n)
    case BannedPhrase(b) => "Banned phrase: " + b
  }

  /** `rules.get("max_chars") and len(text) > rules["max_chars"]`: a limit of 0 or none is no limit. */
  predicate TooLongFor(text: string, rules: StructuralRules) {
    rules.maxChars.Some? && rules.maxChars.value != 0 && |text| > rules.maxChars.value
  }

  /** One banned-phrase issue per phrase, in order: the issues are exactly the phrases, as issues. */
  function BannedIssues(phrases: seq<string>): (r: seq<StructuralIssue>)
    ensures |r| == |phrases|
    ensures forall e :: e in r <==> e.BannedPhrase? && e.phrase in phrases
  {
    var r := seq(|phrases|, k requires 0 <= k < |phrases| => BannedPhrase(phrases[k]));
    forall e | e in r ensures e.BannedPhrase? && e.phrase in phrases {
      var k :| 0 <= k < |r| && r[k] == e;
    }
    forall e: StructuralIssue | e.BannedPhrase? && e.phrase in phrases ensures e in r {
      var k :| 0 <= k < |phrases| && phrases[k] == e.phrase;
      assert r[k] == e;
    }
    r
  }

  /** The issues `structural_checks` reports: the length first, then the banned phrases in rule order. */
  function StructuralIssues(text: string, rules: StructuralRules): seq<StructuralIssue> {
    (if TooLongFor(text, rules) then [TooLong(rules.maxChars.value, |text|)] else [])
    + BannedIssues(FoundPhrases(Lower(text), rules.bannedPhrases))
  }

  /** `structural_checks`: the text length and the issues, built by appending. */
  method StructuralChecks(text: string, rules: StructuralRules) returns (length: nat, issues: seq<StructuralIssue>)
    ensures length == |text| && issues == StructuralIssues(text, rules)
  {
    issues := [];
    if rules.maxChars.Some? && rules.maxChars.value != 0 && |text| > rules.maxChars.value {
      issues := issues + [TooLong(rules.maxChars.value, |text|)];
    }
    ghost var n := |issues|;
    var lowered := Lower(text);
    for k := 0 to |rules.bannedPhrases|
      invariant |issues| >= n
      invariant issues[..n] == if TooLongFor(text, rules) then [TooLong(rules.maxChars.value, |text|)] else []
      invariant issues[n..] == BannedIssues(FoundPhrases(lowered, rules.bannedPhrases[..k]))
    {
      var b := rules.bannedPhrases[k];
      assert rules.bannedPhrases[..k + 1][..k] == rules.bannedPhrases[..k];
      if Contains(lowered, b) {
        issues := issues + [BannedPhrase(b)];
      }
    }
    assert rules.bannedPhrases[..|rules.bannedPhrases|] == rules.bannedPhrases;
    assert issues == issues[..n] + issues[n..];
    length := |text|;
  }

  /**
   * A length issue exactly when a truthy limit is exceeded; a banned-phrase
   * issue exactly for the listed phrases that occur in the lowercased text
   * (the phrase itself is not lowercased); no issues exactly when neither.
   */
  lemma StructuralIssuesIff(text: string, rules: StructuralRules)
    ensures (exists m, n :: TooLong(m, n) in StructuralIssues(text, rules)) <==> TooLongFor(text, rules)
    ensures forall b :: BannedPhrase(b) in StructuralIssues(text, rules) <==> b in rules.bannedPhrases && Contains(Lower(text), b)
    ensures StructuralIssues(text, rules) == [] <==>
      !TooLongFor(text, rules) && forall b :: b in rules.bannedPhrases ==> !Contains(Lower(text), b)
  {
    var found := FoundPhrases(Lower(text), rules.bannedPhrases);
    var bi := BannedIssues(found);
    var si := StructuralIssues(text, rules);
    forall b ensures b in found <==> b in rules.bannedPhrases && Contains(Lower(text), b) {
      FoundPhrasesMembers(Lower(text), rules.bannedPhrases, b);
    }
    assert forall e :: e in si <==> (TooLongFor(text, rules) && e == TooLong(rules.maxChars.value, |text|)) || e in bi;
    EmptyIffNoMembers(found);
    EmptyIffNoMembers(si);
  }

  lemma EmptyIffNoMembers<T>(xs: seq<T>)
    ensures xs == [] <==> forall x :: x !in xs
  {
    if xs != [] {
      assert xs[0] in xs;
    }
  }

  /** `cov_ok and tests_ok and struct_ok`. */
  predicate OverallOk(r: CoverageReport, issues: seq<StructuralIssue>, threshold: real) {
    && r.invariants.coverage >= threshold
    && r.techniques.coverage >= threshold
    && r.outputs.coverage >= threshold
    && r.tests.coverage >= 1.0
    && |issues| == 0
  }

  /** The verdict: each category at the threshold, every test passed, and no structural issue. */
  lemma OverallOkIff(r: CoverageReport, issues: seq<StructuralIssue>, threshold: real)
    requires SummaryOf(r.tests, r.testsDetail)
    ensures OverallOk(r, issues, threshold) <==>
      && r.invariants.coverage >= threshold && r.techniques.coverage >= threshold && r.outputs.coverage >= threshold
      && (forall k :: 0 <= k < |r.testsDetail| ==> r.testsDetail[k].passed)
      && issues == []
  {
  }

  /** A category's ratio: the share of its ids whose bracketed token occurs in the text. */
  function Share(text: string, ids: seq<string>): real {
    SplitSizes(text, ids, true);
    Ratio(|Split(text, ids, true, true)|, |ids|)
  }

  /**
   * The verdict in terms of the scored text itself: each category's share
   * reaches the threshold, every reference of every test occurs verbatim, no
   * truthy length limit is exceeded and no listed phrase occurs in the
   * lowercased text.
   */
  lemma VerdictIff(r: CoverageReport, text: string, chk: Checklist, rules: StructuralRules, threshold: real)
    requires ScoredBy(r, text, chk)
    ensures OverallOk(r, StructuralIssues(text, rules), threshold) <==>
      && Share(text, CategoryIds(chk.invariants)) >= threshold
      && Share(text, CategoryIds(chk.techniques)) >= threshold
      && Share(text, CategoryIds(chk.outputs)) >= threshold
      && (forall k :: 0 <= k < |chk.tests| ==> forall ref :: ref in Refs(chk.tests[k]) ==> Found(text, ref))
      && !TooLongFor(text, rules)
      && (forall b :: b in rules.bannedPhrases ==> !Contains(Lower(text), b))
  {
    OverallOkIff(r, StructuralIssues(text, rules), threshold);
    StructuralIssuesIff(text, rules);
    assert forall k :: 0 <= k < |chk.tests| ==> r.testsDetail[k] == TestResultOf(text, chk.tests[k]);
  }

  /** The manifest fields the run uses: the input files (spec, checklist, patches) and the rules. */
  datatype Manifest = Manifest(
    spec: string,
    checklist: string,
    patches: seq<string>,
    structural: StructuralRules,
    coverageThreshold: Option<real>)

  /** `[p for p in paths.get("patches", []) if p]`: the patch paths that are not empty, in order. */
  function NonEmptyPaths(ps: seq<string>): (r: seq<string>)
    ensures forall p :: p in r <==> p in ps && p != ""
  {
    if ps == [] then []
    else NonEmptyPaths(ps[..|ps| - 1]) + (if ps[|ps| - 1] != "" then [ps[|ps| - 1]] else [])
  }

  /** `[spec, checklist, *patches]`. */
  function InputFiles(m: Manifest): seq<string> {
    [m.spec, m.checklist] + NonEmptyPaths(m.patches)
  }

  /** `manifest.get("coverage_threshold", 0.95)`. */
  function Threshold(m: Manifest): real {
    m.coverageThreshold.GetOr(0.95)
  }

  /** `{str(p): sha256_file(p) for p in input_files if p.exists()}`. */
  function InputsHash(files: seq<string>, disk: map<string, string>, hash: string -> string): (h: map<string, string>)
    ensures forall p :: p in h <==> p in files && p in disk
    ensures forall p :: p in h ==> h[p] == hash(disk[p])
  {
    map p | p in files && p in disk :: hash(disk[p])
  }

  /** Two disks agree on a list of files: the same ones exist, with the same texts. */
  predicate SameInputs(files: seq<string>, d1: map<string, string>, d2: map<string, string>) {
    forall p :: p in files ==> (p in d1 <==> p in d2) && (p in d1 && p in d2 ==> d1[p] == d2[p])
  }

  /** The hash map depends on the input files only: disks that agree on them give the same map. */
  lemma SameInputsSameHash(files: seq<string>, d1: map<string, string>, d2: map<string, string>, hash: string -> string)
    requires SameInputs(files, d1, d2)
    ensures InputsHash(files, d1, hash) == InputsHash(files, d2, hash)
  {
  }

  /**
   * With a collision-free hash the map also detects every change: equal maps
   * mean that no input file appeared, disappeared or changed its text.
   */
  lemma SameHashSameInputs(files: seq<string>, d1: map<string, string>, d2: map<string, string>, hash: string -> string)
    requires forall a, b :: hash(a) == hash(b) ==> a == b
    requires InputsHash(files, d1, hash) == InputsHash(files, d2, hash)
    ensures SameInputs(files, d1, d2)
  {
    var h1, h2 := InputsHash(files, d1, hash), InputsHash(files, d2, hash);
    forall p | p in files
      ensures (p in d1 <==> p in d2) && (p in d1 && p in d2 ==> d1[p] == d2[p])
    {
      assert p in d1 <==> p in h1;
      assert p in d2 <==> p in h2;
      if p in d1 && p in d2 {
        assert hash(d1[p]) == h1[p] == h2[p] == hash(d2[p]);
      }
    }
  }

  datatype Badge = Badge(invariants: real, techniques: real, outputs: real, tests: real, structuralOk: bool, status: string)

  /** The parsed lock file. */
  datatype LockFile = LockFile(inputsHash: Option<map<string, string>>, result: Option<Badge>)

  /**
   * The rebuild decision: the stored input hashes differ from the current ones
   * (a missing or unreadable lock stores none), or the runtime prompt is missing.
   */
  predicate NeedsRebuild(lock: Option<LockFile>, h: map<string, string>, runtime: Option<string>) {
    var stored := if lock.Some? then lock.value.inputsHash else None;
    stored != Some(h) || runtime.None?
  }

  lemma RebuildIff(lock: Option<LockFile>, h: map<string, string>, runtime: Option<string>)
    ensures lock.None? ==> NeedsRebuild(lock, h, runtime)
    ensures runtime.None? ==> NeedsRebuild(lock, h, runtime)
    ensures !NeedsRebuild(lock, h, runtime) <==> lock.Some? && lock.value.inputsHash == Some(h) && runtime.Some?
  {
  }

  predicate IsCi(argv: seq<string>) {
    "--ci" in argv || "--check" in argv
  }

  /** The exit status: 0 or 1 by the verdict under `--ci`/`--check`, otherwise a normal end. */
  function ExitCode(argv: seq<string>, overallOk: bool): int {
    if IsCi(argv) && !overallOk then 1 else 0
  }

  /**
   * Steps 2 to 4 and the badge of `main`: score the runtime text against the
   * checklist, apply the structural rules to it, and combine both into the
   * verdict that the badge records with the four ratios.
   */
  method Assess(text: string, chk: Checklist, m: Manifest)
    returns (report: CoverageReport, issues: seq<StructuralIssue>, overallOk: bool, b: Badge)
    ensures ScoredBy(report, text, chk)
    ensures issues == StructuralIssues(text, m.structural)
    ensures overallOk == OverallOk(report, issues, Threshold(m))
    ensures b == Badge(report.invariants.coverage, report.techniques.coverage, report.outputs.coverage,
      report.tests.coverage, issues == [], if overallOk then "pass" else "fail")
  {
    report := CalcCoverage(text, chk);
    var length;
    length, issues := StructuralChecks(text, m.structural);
    var threshold := Threshold(m);
    var covOk := report.invariants.coverage >= threshold && report.techniques.coverage >= threshold
      && report.outputs.coverage >= threshold;
    var testsOk := report.tests.coverage >= 1.0;
    var structOk := |issues| == 0;
    overallOk := covOk && testsOk && structOk;
    b := Badge(report.invariants.coverage, report.techniques.coverage, report.outputs.coverage,
      report.tests.coverage, structOk, if overallOk then "pass" else "fail");
  }

  /** The files of the repository the orchestrator reads and rewrites. */
  class Workspace {
    var runtime: Option<string>
    var lock: Option<LockFile>
    var badge: Option<Badge>

    constructor (runtime: Option<string>, lock: Option<LockFile>)
      ensures this.runtime == runtime && this.lock == lock && badge == None
    {
      this.runtime, this.lock, badge := runtime, lock, None;
    }

    /**
     * `main`: recompile when needed, check the (new) runtime prompt, and
     * overwrite the badge and the lock with the current hashes whatever the
     * verdict.  An immediate re-run with the same inputs does not recompile.
     */
    method Run(m: Manifest, disk: map<string, string>, hash: string -> string, compiled: string,
               chk: Checklist, argv: seq<string>)
      returns (changed: bool, report: CoverageReport, issues: seq<StructuralIssue>, overallOk: bool, exitCode: int)
      modifies this
      ensures changed == NeedsRebuild(old(lock), InputsHash(InputFiles(m), disk, hash), old(runtime))
      ensures runtime == if changed then Some(compiled) else old(runtime)
      ensures runtime.Some? && ScoredBy(report, runtime.value, chk)
      ensures issues == StructuralIssues(runtime.value, m.structural)
      ensures overallOk == OverallOk(report, issues, Threshold(m))
      ensures badge == Some(Badge(report.invariants.coverage, report.techniques.coverage, report.outputs.coverage,
        report.tests.coverage, issues == [], if overallOk then "pass" else "fail"))
      ensures lock == Some(LockFile(Some(InputsHash(InputFiles(m), disk, hash)), badge))
      ensures !NeedsRebuild(lock, InputsHash(InputFiles(m), disk, hash), runtime)
      ensures exitCode == ExitCode(argv, overallOk)
    {
      var h := InputsHash(InputFiles(m), disk, hash);
      var stored := if lock.Some? then lock.value.inputsHash else None;
      changed := stored != Some(h);
      if runtime.None? {
        changed := true;
      }
      if changed {
        runtime := Some(compiled);
      }
      var b;
      report, issues, overallOk, b := Assess(runtime.value, chk, m);
      badge := Some(b);
      lock := Some(LockFile(Some(h), Some(b)));
      exitCode := if IsCi(argv) then (if overallOk then 0 else 1) else 0;
    }
  }

  /**
   * After a run on one disk, a run on another with the runtime prompt present
   * recompiles exactly when an input file appeared, disappeared or changed
   * (for a collision-free hash).
   */
  lemma RebuildIffInputsChanged(m: Manifest, d1: map<string, string>, d2: map<string, string>, hash: string -> string, b: Badge, text: string)
    requires forall a, b :: hash(a) == hash(b) ==> a == b
    ensures NeedsRebuild(Some(LockFile(Some(InputsHash(InputFiles(m), d1, hash)), Some(b))), InputsHash(InputFiles(m), d2, hash), Some(text))
      <==> !SameInputs(InputFiles(m), d1, d2)
  {
    if SameInputs(InputFiles(m), d1, d2) {
      SameInputsSameHash(InputFiles(m), d1, d2, hash);
    } else if InputsHash(InputFiles(m), d1, hash) == InputsHash(InputFiles(m), d2, hash) {
      SameHashSameInputs(InputFiles(m), d1, d2, hash);
    }
  }

  /** After a run the lock holds the current hashes: running again with unchanged inputs does not recompile. */
  lemma RerunSkipsCompile(h: map<string, string>, b: Badge, text: string)
    ensures !NeedsRebuild(Some(LockFile(Some(h), Some(b))), h, Some(text))
  {
  }
}
