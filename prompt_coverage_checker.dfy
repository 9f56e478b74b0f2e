/**
 * The checklist coverage report (prompt_coverage_checker.py): per-category
 * present/missing splits by the literal "[id]" token, per-test missing
 * references, the summary rows and one per-item row for every id and test.
 * The CSV rendering is left to the caller; the rows are the model's output.
 */
module PromptCoverage {
  import opened Wrappers
  import opened Text
  import opened Checklist

  /** `search_token`: the token occurs literally (regex metacharacters are escaped). */
  function SearchToken(text: string, token: string): (b: bool)
    ensures b <==> Contains(text, token)
    ensures token == [] ==> b
    ensures b ==> |token| <= |text|
  {
    assert token == [] ==> OccursAt(text, token, 0);
    Found(text, token)
  }

  /** A test as `collect_ids_and_refs` lists it: its id and its references. */
  datatype TestRef = TestRef(id: Option<string>, mustReference: seq<string>)

  /**
   * `collect_ids_and_refs`: the truthy ids of the three categories, and every
   * test with `must_reference` defaulting to the empty list.
   */
  method CollectIdsAndRefs(chk: Checklist) returns (invariants: seq<string>, techniques: seq<string>, outputs: seq<string>, tests: seq<TestRef>)
    ensures invariants == CategoryIds(chk.invariants)
    ensures techniques == CategoryIds(chk.techniques)
    ensures outputs == CategoryIds(chk.outputs)
    ensures |tests| == |chk.tests|
    ensures forall k :: 0 <= k < |tests| ==> tests[k].id == chk.tests[k].id && tests[k].mustReference == Refs(chk.tests[k])
  {
    invariants := CategoryIds(chk.invariants);
    techniques := CategoryIds(chk.techniques);
    outputs := CategoryIds(chk.outputs);
    tests := [];
    for k := 0 to |chk.tests|
      invariant |tests| == k
      invariant forall j :: 0 <= j < k ==> tests[j].id == chk.tests[j].id && tests[j].mustReference == Refs(chk.tests[j])
    {
      tests := tests + [TestRef(chk.tests[k].id, Refs(chk.tests[k]))];
    }
  }

  datatype CategoryCoverage = CategoryCoverage(
    category: string, total: nat, present: nat, coverage: real, missing: seq<string>, presentIds: seq<string>)

  /** A category record: its name, the ids split by the bracketed token, the counts and the ratio. */
  ghost predicate CategoryScored(c: CategoryCoverage, text: string, name: string, ids: seq<string>) {
    && c.category == name && c.total == |ids|
    && c.presentIds == Split(text, ids, true, true) && c.missing == Split(text, ids, true, false)
    && c.present == |c.presentIds| && c.present + |c.missing| == c.total
    && c.coverage == Ratio(c.present, c.total)
  }

  /** `coverage_for_category`: split by the bracketed token, ratio 1 on an empty category. */
  method CoverageForCategory(text: string, name: string, ids: seq<string>) returns (c: CategoryCoverage)
    ensures CategoryScored(c, text, name, ids)
    ensures ids == [] ==> c.coverage == 1.0
  {
    var present, missing := SplitIds(text, ids, true);
    SplitSizes(text, ids, true);
    c := CategoryCoverage(name, |ids|, |present|, Ratio(|present|, |ids|), missing, present);
  }

  /** One row of the tests detail. */
  datatype TestRow = TestRow(testId: Option<string>, mustReference: seq<string>, missing: seq<string>, passed: bool)

  datatype TestsSummary = TestsSummary(category: string, total: nat, present: nat, coverage: real, missing: seq<Option<string>>)

  function TestRowOf(text: string, t: TestRef): (r: TestRow)
    ensures r.testId == t.id && r.mustReference == t.mustReference
    ensures forall x :: x in r.missing <==> x in t.mustReference && !SearchToken(text, x)
    ensures r.passed <==> r.missing == []
    ensures r.passed <==> forall ref :: ref in t.mustReference ==> SearchToken(text, ref)
  {
    PassedIffAllFound(text, t.mustReference);
    forall x ensures x in MissingRefs(text, t.mustReference) <==> x in t.mustReference && !SearchToken(text, x) {
      SplitMembers(text, t.mustReference, false, false, x);
    }
    var missing := MissingRefs(text, t.mustReference);
    TestRow(t.id, t.mustReference, missing, missing == [])
  }

  function PassedCount(rows: seq<TestRow>): (n: nat)
    ensures n <= |rows|
    ensures n == |rows| <==> forall k :: 0 <= k < |rows| ==> rows[k].passed
  {
    if rows == [] then 0
    else PassedCount(rows[..|rows| - 1]) + (if rows[|rows| - 1].passed then 1 else 0)
  }

  /** `[r["test_id"] for r in results if not r["passed"]]`. */
  function FailedIds(rows: seq<TestRow>): (ids: seq<Option<string>>)
    ensures |ids| + PassedCount(rows) == |rows|
  {
    if rows == [] then []
    else FailedIds(rows[..|rows| - 1]) + (if rows[|rows| - 1].passed then [] else [rows[|rows| - 1].testId])
  }

  /** A failed id is listed exactly when some row that did not pass carries it. */
  lemma {:induction false} FailedIdsMembers(rows: seq<TestRow>, x: Option<string>)
    ensures x in FailedIds(rows) <==> exists k :: 0 <= k < |rows| && !rows[k].passed && rows[k].testId == x
  {
    if rows != [] {
      var init := rows[..|rows| - 1];
      FailedIdsMembers(init, x);
      assert rows == init + [rows[|rows| - 1]];
    }
  }

  /** `tests_coverage`: one row per test, and the summary counting the tests that passed. */
  method TestsCoverage(text: string, tests: seq<TestRef>) returns (results: seq<TestRow>, summary: TestsSummary)
    ensures |results| == |tests| && forall k :: 0 <= k < |tests| ==> results[k] == TestRowOf(text, tests[k])
    ensures summary.category == "tests" && summary.total == |tests|
    ensures summary.present == PassedCount(results) && summary.coverage == Ratio(summary.present, summary.total)
    ensures summary.missing == FailedIds(results)
  {
    results := [];
    for k := 0 to |tests|
      invariant |results| == k && forall j :: 0 <= j < k ==> results[j] == TestRowOf(text, tests[j])
    {
      results := results + [TestRowOf(text, tests[k])];
    }
    var passes := PassedCount(results);
    summary := TestsSummary("tests", |results|, passes, Ratio(passes, |results|), FailedIds(results));
  }

  /** The tests ratio is 1 exactly when every test found all its references (or there are none). */
  lemma TestsRatioOneIff(text: string, tests: seq<TestRef>, results: seq<TestRow>)
    requires |results| == |tests| && forall k :: 0 <= k < |tests| ==> results[k] == TestRowOf(text, tests[k])
    ensures Ratio(PassedCount(results), |results|) == 1.0 <==>
      forall k :: 0 <= k < |tests| ==> forall ref :: ref in tests[k].mustReference ==> SearchToken(text, ref)
  {
  }

  /** One row of the per-item table. */
  datatype ItemRow = ItemRow(category: string, id: Option<string>, found: bool)

  /**
   * The rows of one category: one per id, in order, found exactly when the id
   * is on the present side of the category's split (and otherwise on the
   * missing side), so the per-item table agrees with the summary.
   */
  function CategoryRows(text: string, cat: string, ids: seq<string>): (rows: seq<ItemRow>)
    ensures |rows| == |ids|
    ensures forall k :: 0 <= k < |ids| ==> rows[k].category == cat && rows[k].id == Some(ids[k])
    ensures forall k :: 0 <= k < |ids| ==> (rows[k].found <==> ids[k] in Split(text, ids, true, true))
    ensures forall k :: 0 <= k < |ids| ==> (!rows[k].found <==> ids[k] in Split(text, ids, true, false))
  {
    forall x ensures x in Split(text, ids, true, true) <==> x in ids && Found(text, Token(x)) {
      SplitMembers(text, ids, true, true, x);
    }
    forall x ensures x in Split(text, ids, true, false) <==> x in ids && !Found(text, Token(x)) {
      SplitMembers(text, ids, true, false, x);
    }
    seq(|ids|, k requires 0 <= k < |ids| => ItemRow(cat, Some(ids[k]), SearchToken(text, Token(ids[k]))))
  }

  /** The test rows of the per-item table: one per test result, found exactly when the test passed. */
  function TestItemRows(results: seq<TestRow>): seq<ItemRow> {
    seq(|results|, k requires 0 <= k < |results| => ItemRow("tests", results[k].testId, results[k].passed))
  }

  /** The number of found rows. */
  function FoundCount(rows: seq<ItemRow>): nat {
    if rows == [] then 0
    else FoundCount(rows[..|rows| - 1]) + (if rows[|rows| - 1].found then 1 else 0)
  }

  /** A category's rows hold as many found entries as the summary counts present ids. */
  lemma {:induction false} FoundCountIsPresent(text: string, cat: string, ids: seq<string>)
    ensures FoundCount(CategoryRows(text, cat, ids)) == |Split(text, ids, true, true)|
  {
    if ids != [] {
      var init := ids[..|ids| - 1];
      FoundCountIsPresent(text, cat, init);
      assert CategoryRows(text, cat, ids)[..|ids| - 1] == CategoryRows(text, cat, init);
    }
  }

  /** The test rows hold as many found entries as the tests summary counts passed tests. */
  lemma {:induction false} FoundCountIsPassed(results: seq<TestRow>)
    ensures FoundCount(TestItemRows(results)) == PassedCount(results)
  {
    if results != [] {
      var init := results[..|results| - 1];
      FoundCountIsPassed(init);
      assert TestItemRows(results)[..|results| - 1] == TestItemRows(init);
    }
  }

  lemma {:induction false} FoundCountAppend(a: seq<ItemRow>, b: seq<ItemRow>)
    ensures FoundCount(a + b) == FoundCount(a) + FoundCount(b)
    decreases |b|
  {
    if b != [] {
      var b0 := b[..|b| - 1];
      assert (a + b)[..|a + b| - 1] == a + b0;
      FoundCountAppend(a, b0);
    } else {
      assert a + b == a;
    }
  }

  /** A test row is found exactly when every reference of its test occurs in the text. */
  lemma TestRowsFoundIff(text: string, tests: seq<TestRef>, results: seq<TestRow>)
    requires |results| == |tests| && forall k :: 0 <= k < |tests| ==> results[k] == TestRowOf(text, tests[k])
    ensures forall k :: 0 <= k < |tests| ==>
      (TestItemRows(results)[k].found <==> forall ref :: ref in tests[k].mustReference ==> SearchToken(text, ref))
  {
  }

  /** The per-item rows of `main`: the three categories in order, then the tests. */
  method PerItemRows(text: string, invariants: seq<string>, techniques: seq<string>, outputs: seq<string>, results: seq<TestRow>)
    returns (rows: seq<ItemRow>)
    ensures rows == CategoryRows(text, "invariants", invariants) + CategoryRows(text, "techniques", techniques)
                    + CategoryRows(text, "outputs", outputs) + TestItemRows(results)
    ensures |rows| == |invariants| + |techniques| + |outputs| + |results|
  {
    rows := [];
    var cats := [("invariants", invariants), ("techniques", techniques), ("outputs", outputs)];
    for c := 0 to |cats|
      invariant rows == RowsOf(text, cats[..c])
    {
      var (cat, ids) := cats[c];
      assert cats[..c + 1][..c] == cats[..c];
      rows := AppendCategoryRows(rows, text, cat, ids);
    }
    assert cats[..3] == cats && cats[..3][..2] == cats[..2] && cats[..2][..1] == cats[..1] && cats[..1][..0] == [];
    assert RowsOf(text, cats[..1]) == CategoryRows(text, "invariants", invariants);
    assert RowsOf(text, cats[..2]) == RowsOf(text, cats[..1]) + CategoryRows(text, "techniques", techniques);
    assert RowsOf(text, cats[..3]) == RowsOf(text, cats[..2]) + CategoryRows(text, "outputs", outputs);
    ghost var before := rows;
    for i := 0 to |results|
      invariant rows == before + TestItemRows(results[..i])
    {
      rows := rows + [ItemRow("tests", results[i].testId, results[i].passed)];
      assert TestItemRows(results[..i + 1]) == TestItemRows(results[..i]) + [ItemRow("tests", results[i].testId, results[i].passed)];
    }
    assert results[..|results|] == results;
  }

  /** The rows of a list of (category, ids) pairs, in order. */
  function RowsOf(text: string, cats: seq<(string, seq<string>)>): seq<ItemRow> {
    if cats == [] then []
    else RowsOf(text, cats[..|cats| - 1]) + CategoryRows(text, cats[|cats| - 1].0, cats[|cats| - 1].1)
  }

  /** The inner loop of the per-item rows for one category. */
  method AppendCategoryRows(rows: seq<ItemRow>, text: string, cat: string, ids: seq<string>) returns (r: seq<ItemRow>)
    ensures r == rows + CategoryRows(text, cat, ids)
  {
    r := rows;
    for i := 0 to |ids|
      invariant r == rows + CategoryRows(text, cat, ids[..i])
    {
      r := r + [ItemRow(cat, Some(ids[i]), SearchToken(text, Token(ids[i])))];
      assert CategoryRows(text, cat, ids[..i + 1]) == CategoryRows(text, cat, ids[..i]) + [ItemRow(cat, Some(ids[i]), SearchToken(text, Token(ids[i])))];
    }
    assert ids[..|ids|] == ids;
  }

  /** The whole report: the four summaries, the tests detail and the per-item rows. */
  method CheckCoverage(text: string, chk: Checklist)
    returns (summary: seq<CategoryCoverage>, tests: TestsSummary, detail: seq<TestRow>, rows: seq<ItemRow>)
    ensures |summary| == 3
    ensures CategoryScored(summary[0], text, "invariants", CategoryIds(chk.invariants))
    ensures CategoryScored(summary[1], text, "techniques", CategoryIds(chk.techniques))
    ensures CategoryScored(summary[2], text, "outputs", CategoryIds(chk.outputs))
    ensures |detail| == |chk.tests|
    ensures forall k :: 0 <= k < |chk.tests| ==> detail[k] == TestRowOf(text, TestRef(chk.tests[k].id, Refs(chk.tests[k])))
    ensures tests == TestsSummary("tests", |chk.tests|, PassedCount(detail), Ratio(PassedCount(detail), |chk.tests|), FailedIds(detail))
    ensures rows == CategoryRows(text, "invariants", CategoryIds(chk.invariants)) + CategoryRows(text, "techniques", CategoryIds(chk.techniques))
                    + CategoryRows(text, "outputs", CategoryIds(chk.outputs)) + TestItemRows(detail)
  {
    var invs, tecs, outs, trefs := CollectIdsAndRefs(chk);
    var invCov := CoverageForCategory(text, "invariants", invs);
    var tecCov := CoverageForCategory(text, "techniques", tecs);
    var outCov := CoverageForCategory(text, "outputs", outs);
    detail, tests := TestsCoverage(text, trefs);
    assert forall k :: 0 <= k < |chk.tests| ==> trefs[k] == TestRef(chk.tests[k].id, Refs(chk.tests[k]));
    rows := PerItemRows(text, invs, tecs, outs, detail);
    summary := [invCov, tecCov, outCov];
  }

  /**
   * The per-item table agrees with the summary table: it has one row per id
   * and per test, and its found rows number the present ids of the three
   * categories plus the passed tests.
   */
  lemma TableAgreesWithSummary(text: string, chk: Checklist, summary: seq<CategoryCoverage>, tests: TestsSummary,
                               detail: seq<TestRow>, rows: seq<ItemRow>)
    requires |summary| == 3
    requires CategoryScored(summary[0], text, "invariants", CategoryIds(chk.invariants))
    requires CategoryScored(summary[1], text, "techniques", CategoryIds(chk.techniques))
    requires CategoryScored(summary[2], text, "outputs", CategoryIds(chk.outputs))
    requires tests.present == PassedCount(detail)
    requires rows == CategoryRows(text, "invariants", CategoryIds(chk.invariants)) + CategoryRows(text, "techniques", CategoryIds(chk.techniques))
                     + CategoryRows(text, "outputs", CategoryIds(chk.outputs)) + TestItemRows(detail)
    ensures |rows| == summary[0].total + summary[1].total + summary[2].total + |detail|
    ensures FoundCount(rows) == summary[0].present + summary[1].present + summary[2].present + tests.present
  {
    var a := CategoryRows(text, "invariants", CategoryIds(chk.invariants));
    var b := CategoryRows(text, "techniques", CategoryIds(chk.techniques));
    var c := CategoryRows(text, "outputs", CategoryIds(chk.outputs));
    var t := TestItemRows(detail);
    FoundCountAppend(a + b + c, t);
    FoundCountAppend(a + b, c);
    FoundCountAppend(a, b);
    FoundCountIsPresent(text, "invariants", CategoryIds(chk.invariants));
    FoundCountIsPresent(text, "techniques", CategoryIds(chk.techniques));
    FoundCountIsPresent(text, "outputs", CategoryIds(chk.outputs));
    FoundCountIsPassed(detail);
  }
}
