/**
 * The ID integrity check (id_integrity_check.py). The defined IDs are gathered
 * from the source documents (requirements, tests and glossary), the ADR files
 * and the prompt checklists. Every bracketed ID in a compiled output must then
 * resolve: either it is defined, or its prefix is one of the allowed pseudo
 * prefixes that do not need a definition.
 *
 * The parsed YAML documents are given as values. An item whose `id` key is
 * present holds `Some(id)`, and a missing file is `None`. An ADR directory
 * that does not exist is an empty list of ADR files.
 */
module IdIntegrity {
  import opened Wrappers
  import opened Text
  import opened Checklist
  import opened IdPattern
  import Ordering

  /** The parsed inputs of `gather_defined_ids`. */
  datatype Sources = Sources(
    docs: seq<Option<seq<Item>>>,     // requirements.yaml, tests.yaml, glossary.yaml
    adrs: seq<seq<Item>>,             // docs/sources/adrs/*.yaml
    checklists: seq<Option<Checklist>>) // Prompt_Checklist_v1.0.yaml, Prompt_Checklist.yaml

  /** The ids of the items that have an `id` key. */
  function ItemIds(items: seq<Item>): set<string> {
    set k | 0 <= k < |items| && items[k].id.Some? :: items[k].id.value
  }

  /** The tests of a checklist, seen as items (only their ids matter here). */
  function TestItems(tests: seq<TestEntry>): (r: seq<Item>)
    ensures |r| == |tests| && forall k :: 0 <= k < |tests| ==> r[k].id == tests[k].id
  {
    seq(|tests|, k requires 0 <= k < |tests| => Item(tests[k].id))
  }

  function DocIds(doc: Option<seq<Item>>): set<string> {
    match doc
    case None => {}
    case Some(items) => ItemIds(items)
  }

  /** The ids of the four checklist categories. */
  function ChecklistIds(c: Option<Checklist>): set<string> {
    match c
    case None => {}
    case Some(chk) => ItemIds(chk.invariants) + ItemIds(chk.techniques) + ItemIds(chk.outputs) + ItemIds(TestItems(chk.tests))
  }

  /** The union of f over the elements of xs. */
  function UnionOf<T>(xs: seq<T>, f: T -> set<string>): set<string> {
    if xs == [] then {} else UnionOf(xs[..|xs| - 1], f) + f(xs[|xs| - 1])
  }

  lemma {:induction false} UnionOfMembers<T>(xs: seq<T>, f: T -> set<string>, x: string)
    ensures x in UnionOf(xs, f) <==> exists k :: 0 <= k < |xs| && x in f(xs[k])
  {
    if xs != [] {
      var init := xs[..|xs| - 1];
      UnionOfMembers(init, f, x);
      if exists k :: 0 <= k < |init| && x in f(init[k]) {
        var k :| 0 <= k < |init| && x in f(init[k]);
        assert xs[k] == init[k];
      }
      if exists k :: 0 <= k < |xs| && x in f(xs[k]) {
        var k :| 0 <= k < |xs| && x in f(xs[k]);
        if k < |init| { assert init[k] == xs[k]; }
      }
    }
  }

  /** All the ids defined by the sources. */
  function DefinedIds(src: Sources): set<string> {
    UnionOf(src.docs, DocIds) + UnionOf(src.adrs, ItemIds) + UnionOf(src.checklists, ChecklistIds)
  }

  /**
   * An id is defined exactly when some item of an existing source document,
   * of an ADR file or of a checklist category carries it; missing files and
   * items without an id add nothing.
   */
  lemma DefinedIdsMembers(src: Sources, x: string)
    ensures x in DefinedIds(src) <==>
      || (exists d, k :: 0 <= d < |src.docs| && src.docs[d].Some? && 0 <= k < |src.docs[d].value| && src.docs[d].value[k].id == Some(x))
      || (exists a, k :: 0 <= a < |src.adrs| && 0 <= k < |src.adrs[a]| && src.adrs[a][k].id == Some(x))
      || (exists c :: 0 <= c < |src.checklists| && x in ChecklistIds(src.checklists[c]))
  {
    UnionOfMembers(src.docs, DocIds, x);
    UnionOfMembers(src.adrs, ItemIds, x);
    UnionOfMembers(src.checklists, ChecklistIds, x);
    if exists d :: 0 <= d < |src.docs| && x in DocIds(src.docs[d]) {
      var d :| 0 <= d < |src.docs| && x in DocIds(src.docs[d]);
      var k :| 0 <= k < |src.docs[d].value| && src.docs[d].value[k].id.Some? && src.docs[d].value[k].id.value == x;
    }
    if exists a :: 0 <= a < |src.adrs| && x in ItemIds(src.adrs[a]) {
      var a :| 0 <= a < |src.adrs| && x in ItemIds(src.adrs[a]);
      var k :| 0 <= k < |src.adrs[a]| && src.adrs[a][k].id.Some? && src.adrs[a][k].id.value == x;
    }
    if exists d, k :: 0 <= d < |src.docs| && src.docs[d].Some? && 0 <= k < |src.docs[d].value| && src.docs[d].value[k].id == Some(x) {
      var d, k :| 0 <= d < |src.docs| && src.docs[d].Some? && 0 <= k < |src.docs[d].value| && src.docs[d].value[k].id == Some(x);
      assert x in DocIds(src.docs[d]);
    }
    if exists a, k :: 0 <= a < |src.adrs| && 0 <= k < |src.adrs[a]| && src.adrs[a][k].id == Some(x) {
      var a, k :| 0 <= a < |src.adrs| && 0 <= k < |src.adrs[a]| && src.adrs[a][k].id == Some(x);
      assert x in ItemIds(src.adrs[a]);
    }
  }

  lemma ItemIdsStep(items: seq<Item>, j: nat)
    requires j < |items|
    ensures ItemIds(items[..j + 1]) == ItemIds(items[..j]) + (if items[j].id.Some? then {items[j].id.value} else {})
  {
    var a, b := items[..j + 1], items[..j];
    forall x | x in ItemIds(a) ensures x in ItemIds(b) + (if items[j].id.Some? then {items[j].id.value} else {}) {
      var k :| 0 <= k < |a| && a[k].id.Some? && a[k].id.value == x;
      if k < j { assert b[k] == a[k]; }
    }
    forall x | x in ItemIds(b) ensures x in ItemIds(a) {
      var k :| 0 <= k < |b| && b[k].id.Some? && b[k].id.value == x;
      assert a[k] == b[k];
    }
    if items[j].id.Some? {
      assert a[j] == items[j];
    }
  }

  /** `for item in items: if "id" in item: ids.add(item["id"])`. */
  method AddItemIds(ids0: set<string>, items: seq<Item>) returns (ids: set<string>)
    ensures ids == ids0 + ItemIds(items)
  {
    ids := ids0;
    for j := 0 to |items|
      invariant ids == ids0 + ItemIds(items[..j])
    {
      ItemIdsStep(items, j);
      if items[j].id.Some? {
        ids := ids + {items[j].id.value};
      }
    }
    assert items[..|items|] == items;
  }

  /** `gather_defined_ids`: the union of every id over the sources, built up in loops. */
  method GatherDefinedIds(src: Sources) returns (ids: set<string>)
    ensures ids == DefinedIds(src)
  {
    ids := {};
    for d := 0 to |src.docs|
      invariant ids == UnionOf(src.docs[..d], DocIds)
    {
      assert src.docs[..d + 1][..d] == src.docs[..d];
      if src.docs[d].Some? {
        ids := AddItemIds(ids, src.docs[d].value);
      }
    }
    assert src.docs[..|src.docs|] == src.docs;
    ghost var fromDocs := ids;
    for a := 0 to |src.adrs|
      invariant ids == fromDocs + UnionOf(src.adrs[..a], ItemIds)
    {
      assert src.adrs[..a + 1][..a] == src.adrs[..a];
      ids := AddItemIds(ids, src.adrs[a]);
    }
    assert src.adrs[..|src.adrs|] == src.adrs;
    ghost var fromAdrs := ids;
    for c := 0 to |src.checklists|
      invariant ids == fromAdrs + UnionOf(src.checklists[..c], ChecklistIds)
    {
      assert src.checklists[..c + 1][..c] == src.checklists[..c];
      if src.checklists[c].Some? {
        var chk := src.checklists[c].value;
        ids := AddItemIds(ids, chk.invariants);
        ids := AddItemIds(ids, chk.techniques);
        ids := AddItemIds(ids, chk.outputs);
        ids := AddItemIds(ids, TestItems(chk.tests));
      }
    }
    assert src.checklists[..|src.checklists|] == src.checklists;
  }

  /** `ALLOWED_PREFIXES`. */
  const AllowedPrefixes: set<string> := {"REQ", "ADR", "TST", "GLO", "SEC", "OBJ", "PRC", "ROL", "INP", "OUT", "GRD", "REF", "CHG", "TEC", "INV"}

  /** The prefixes whose ids must be defined even though they are allowed. */
  const StrictPrefixes: set<string> := {"REQ", "ADR", "TST", "GLO", "TEC", "INV"}

  /** `sid.split("-")[0]`. */
  function Prefix(sid: string): string {
    BeforeFirst(sid, '-')
  }

  /** The prefix of a bracketed ID is its run of capitals. */
  lemma PrefixOfId(x: string, k: nat)
    requires IdShapeAt(x, k)
    ensures Prefix(x) == x[..k]
  {
    assert forall j :: 0 <= j < k ==> x[..k][j] == x[j];
    BeforeFirstAt(x, '-', k);
  }

  /** The two branches of the classification in `main`. */
  predicate Unresolved(sid: string, defined: set<string>) {
    var pref := Prefix(sid);
    || (pref !in AllowedPrefixes && sid !in defined)
    || (pref in StrictPrefixes && sid !in defined)
  }

  /**
   * An ID is unresolved exactly when it is not defined and its prefix is either
   * not allowed or one of the strict ones.
   */
  lemma UnresolvedIff(sid: string, defined: set<string>)
    ensures Unresolved(sid, defined) <==> sid !in defined && (Prefix(sid) !in AllowedPrefixes || Prefix(sid) in StrictPrefixes)
  {
  }

  /** Defined IDs always resolve, and the pseudo prefixes that are not strict always pass. */
  lemma ResolvedCases(sid: string, defined: set<string>)
    ensures sid in defined ==> !Unresolved(sid, defined)
    ensures Prefix(sid) in AllowedPrefixes - StrictPrefixes ==> !Unresolved(sid, defined)
    ensures AllowedPrefixes - StrictPrefixes == {"SEC", "OBJ", "PRC", "ROL", "INP", "OUT", "GRD", "REF", "CHG"}
  {
  }

  /** With nothing defined, REQ-001 is unresolved: its prefix is strict. */
  lemma StrictExample()
    ensures Unresolved("REQ-001", {})
  {
    PrefixOfId("REQ-001", 3);
    assert "REQ-001"[..3] == "REQ";
  }

  /** With nothing defined, XYZ-123 is unresolved: its prefix is not allowed. */
  lemma UnknownPrefixExample()
    ensures Unresolved("XYZ-123", {})
  {
    PrefixOfId("XYZ-123", 3);
    assert "XYZ-123"[..3] == "XYZ";
    assert "XYZ"[0] == 'X';
    forall p | p in AllowedPrefixes ensures p != "XYZ" {
      assert p[0] != 'X';
    }
  }

  /** With nothing defined, SEC-001 passes: its prefix is allowed and not strict. */
  lemma PseudoPrefixExample()
    ensures !Unresolved("SEC-001", {})
  {
    PrefixOfId("SEC-001", 3);
    assert "SEC-001"[..3] == "SEC";
    assert "SEC" in AllowedPrefixes;
    assert "SEC"[0] == 'S';
    forall p | p in StrictPrefixes ensures p != "SEC" {
      assert p[0] != 'S';
    }
  }

  /** The unresolved IDs of one output text. */
  function UnresolvedIds(txt: string, defined: set<string>): set<string> {
    set sid | sid in FoundIds(txt) && Unresolved(sid, defined)
  }

  /** The unresolved IDs of a file are unresolved bracketed IDs that occur in it. */
  lemma UnresolvedIdsMembers(txt: string, defined: set<string>, sid: string)
    ensures sid in UnresolvedIds(txt, defined) <==> IdShape(sid) && Contains(txt, Bracketed(sid)) && Unresolved(sid, defined)
  {
    FoundIdsIff(txt, sid);
  }

  /** `for sid in seen: ... missing.setdefault(f, []).append(sid)` for one file, in set order. */
  method UnresolvedInFile(txt: string, defined: set<string>) returns (ids: seq<string>)
    ensures forall x :: x in ids <==> x in UnresolvedIds(txt, defined)
  {
    var seen := FoundIds(txt);
    var rest := seen;
    ids := [];
    while rest != {}
      invariant rest <= seen
      invariant forall x :: x in ids <==> x in seen - rest && Unresolved(x, defined)
      decreases rest
    {
      var sid :| sid in rest;
      if Unresolved(sid, defined) {
        ids := ids + [sid];
      }
      rest := rest - {sid};
    }
  }

  /** The compiled outputs scanned, in this order, when they exist. */
  const OutputFiles: seq<string> := ["Runtime_Prompt.md", "docs/out/SRS.md"]

  /** The outputs that exist, in order. */
  function ExistingFiles(disk: map<string, string>, files: seq<string>): (r: seq<string>)
    ensures forall f :: f in r <==> f in files && f in disk
  {
    if files == [] then []
    else ExistingFiles(disk, files[..|files| - 1]) + (if files[|files| - 1] in disk then [files[|files| - 1]] else [])
  }

  /** The existing files that hold an unresolved ID, in order. */
  function FilesWithUnresolved(disk: map<string, string>, defined: set<string>, files: seq<string>): (r: seq<string>)
    requires forall f :: f in files ==> f in disk
    ensures forall f :: f in r ==> f in files
  {
    if files == [] then []
    else
      var f := files[|files| - 1];
      FilesWithUnresolved(disk, defined, files[..|files| - 1]) + (if UnresolvedIds(disk[f], defined) != {} then [f] else [])
  }

  lemma {:induction false} FilesWithUnresolvedMembers(disk: map<string, string>, defined: set<string>, files: seq<string>, f: string)
    requires forall f :: f in files ==> f in disk
    ensures f in FilesWithUnresolved(disk, defined, files) <==> f in files && UnresolvedIds(disk[f], defined) != {}
  {
    if files != [] {
      var init := files[..|files| - 1];
      FilesWithUnresolvedMembers(disk, defined, init, f);
      assert files == init + [files[|files| - 1]];
    }
  }

  /** One entry of the report: a file and its sorted unresolved IDs. */
  datatype FileReport = FileReport(file: string, ids: seq<string>)

  /** `sys.exit(1)` when some file has an unresolved ID. */
  function ExitCode(report: seq<FileReport>): (code: int)
    ensures code == 0 || code == 1
    ensures code == 0 <==> report == []
  {
    if report == [] then 0 else 1
  }

  /** The report names the files with unresolved IDs, in order, each with them sorted. */
  ghost predicate ReportOf(report: seq<FileReport>, disk: map<string, string>, defined: set<string>, files: seq<string>)
    requires forall f :: f in files ==> f in disk
  {
    && |report| == |FilesWithUnresolved(disk, defined, files)|
    && forall k :: 0 <= k < |report| ==>
        && report[k].file == FilesWithUnresolved(disk, defined, files)[k]
        && Ordering.SortedListOf(Ordering.CodePoint, report[k].ids, UnresolvedIds(disk[FilesWithUnresolved(disk, defined, files)[k]], defined))
  }

  lemma ReportOfAppend(report: seq<FileReport>, disk: map<string, string>, defined: set<string>, files: seq<string>, f: string, ids: seq<string>)
    requires forall g :: g in files + [f] ==> g in disk
    requires ReportOf(report, disk, defined, files)
    requires UnresolvedIds(disk[f], defined) != {}
    requires Ordering.SortedListOf(Ordering.CodePoint, ids, UnresolvedIds(disk[f], defined))
    ensures ReportOf(report + [FileReport(f, ids)], disk, defined, files + [f])
  {
    assert (files + [f])[..|files + [f]| - 1] == files;
  }

  lemma ReportOfSkip(report: seq<FileReport>, disk: map<string, string>, defined: set<string>, files: seq<string>, f: string)
    requires forall g :: g in files + [f] ==> g in disk
    requires ReportOf(report, disk, defined, files)
    requires UnresolvedIds(disk[f], defined) == {}
    ensures ReportOf(report, disk, defined, files + [f])
  {
    assert (files + [f])[..|files + [f]| - 1] == files;
  }

  /** The loop of `main` over the scanned files. */
  method ReportFiles(disk: map<string, string>, defined: set<string>, files: seq<string>) returns (report: seq<FileReport>)
    requires forall f :: f in files ==> f in disk
    ensures ReportOf(report, disk, defined, files)
  {
    report := [];
    for i := 0 to |files|
      invariant ReportOf(report, disk, defined, files[..i])
    {
      assert files[..i + 1] == files[..i] + [files[i]];
      var ids := UnresolvedInFile(disk[files[i]], defined);
      if ids != [] {
        var sorted := Ordering.SortUnique(Ordering.CodePoint, ids);
        ReportOfAppend(report, disk, defined, files[..i], files[i], sorted);
        report := report + [FileReport(files[i], sorted)];
      } else {
        ReportOfSkip(report, disk, defined, files[..i], files[i]);
      }
    }
    assert files[..|files|] == files;
  }

  /** `files.append(...)` for each compiled output that exists. */
  method ScannedFiles(disk: map<string, string>) returns (files: seq<string>)
    ensures files == ExistingFiles(disk, OutputFiles)
  {
    files := [];
    if "Runtime_Prompt.md" in disk { files := files + ["Runtime_Prompt.md"]; }
    if "docs/out/SRS.md" in disk { files := files + ["docs/out/SRS.md"]; }
    assert OutputFiles[..1] == ["Runtime_Prompt.md"] && OutputFiles[..1][..0] == [];
    assert ExistingFiles(disk, OutputFiles[..1]) == if "Runtime_Prompt.md" in disk then ["Runtime_Prompt.md"] else [];
  }

  /** `main`: gather the defined IDs, scan the existing outputs, report the unresolved ones. */
  method Check(disk: map<string, string>, src: Sources) returns (report: seq<FileReport>, code: int)
    ensures ReportOf(report, disk, DefinedIds(src), ExistingFiles(disk, OutputFiles))
    ensures code == ExitCode(report)
  {
    var defined := GatherDefinedIds(src);
    var files := ScannedFiles(disk);
    report := ReportFiles(disk, defined, files);
    code := ExitCode(report);
  }

  /** The check passes exactly when no existing output holds an unresolved ID. */
  lemma PassesIff(report: seq<FileReport>, disk: map<string, string>, defined: set<string>, files: seq<string>)
    requires forall f :: f in files ==> f in disk
    requires ReportOf(report, disk, defined, files)
    ensures ExitCode(report) == 0 <==> forall f :: f in files ==> UnresolvedIds(disk[f], defined) == {}
    ensures report == [] <==> forall f :: f in files ==> UnresolvedIds(disk[f], defined) == {}
  {
    var fs := FilesWithUnresolved(disk, defined, files);
    forall f ensures f in fs <==> f in files && UnresolvedIds(disk[f], defined) != {} {
      FilesWithUnresolvedMembers(disk, defined, files, f);
    }
    if fs != [] {
      assert fs[0] in fs;
    }
  }
}
