/**
 * The prompt checklist and the literal-token coverage rules shared by the
 * sync orchestrator (sync_orchestrator.py) and the coverage checker
 * (prompt_coverage_checker.py): a checklist id is present when "[id]" occurs
 * in the text, a test reference when the reference itself occurs, and a ratio
 * is present/total, or 1 when there is nothing to cover.
 *
 * The checklist is the parsed YAML document: a category key that is absent is
 * an empty list, an entry's `id` is absent, empty or a string, and a test's
 * `must_reference` is absent or a list of strings.
 */
module Checklist {
  import opened Wrappers
  import opened Text

  datatype Item = Item(id: Option<string>)

  datatype TestEntry = TestEntry(id: Option<string>, mustReference: Option<seq<string>>)

  datatype Checklist = Checklist(
    invariants: seq<Item>,
    techniques: seq<Item>,
    outputs: seq<Item>,
    tests: seq<TestEntry>)

  /** Python truthiness of an optional string: present and non-empty. */
  predicate Truthy(id: Option<string>) {
    id.Some? && id.value != ""
  }

  /** `[x.get("id") for x in items if x.get("id")]`. */
  function CategoryIds(items: seq<Item>): (r: seq<string>)
    ensures |r| <= |items|
    ensures forall x :: x in r ==> x != ""
  {
    if items == [] then []
    else CategoryIds(items[..|items| - 1]) + (if Truthy(items[|items| - 1].id) then [items[|items| - 1].id.value] else [])
  }

  /** The ids kept are exactly the truthy ones, in the entries' order. */
  lemma {:induction false} CategoryIdsMembers(items: seq<Item>, x: string)
    ensures x in CategoryIds(items) <==> exists k :: 0 <= k < |items| && items[k].id == Some(x) && x != ""
  {
    if items != [] {
      var init := items[..|items| - 1];
      CategoryIdsMembers(init, x);
      if exists k :: 0 <= k < |init| && init[k].id == Some(x) && x != "" {
        var k :| 0 <= k < |init| && init[k].id == Some(x) && x != "";
        assert items[k] == init[k];
      }
      if exists k :: 0 <= k < |items| && items[k].id == Some(x) && x != "" {
        var k :| 0 <= k < |items| && items[k].id == Some(x) && x != "";
        if k < |init| { assert init[k] == items[k]; }
      }
    }
  }

  /** CategoryIds maps concatenation to concatenation: it keeps the entries' order. */
  lemma {:induction false} CategoryIdsAppend(a: seq<Item>, b: seq<Item>)
    ensures CategoryIds(a + b) == CategoryIds(a) + CategoryIds(b)
    decreases |b|
  {
    if b != [] {
      var b0 := b[..|b| - 1];
      assert (a + b)[..|a + b| - 1] == a + b0;
      CategoryIdsAppend(a, b0);
    } else {
      assert a + b == a;
    }
  }

  /** A test's `must_reference`, defaulting to the empty list. */
  function Refs(t: TestEntry): seq<string> {
    t.mustReference.GetOr([])
  }

  /** `f"[{id}]"`. */
  function Token(id: string): string {
    "[" + id + "]"
  }

  /** The token searched for an id: bracketed, or the id itself. */
  function Wrapped(id: string, wrap: bool): string {
    if wrap then Token(id) else id
  }

  /** `re.search(re.escape(tok), text) is not None`: literal substring search. */
  predicate Found(text: string, tok: string) {
    Contains(text, tok)
  }

  /** The ids whose token is found (found = true) or not found (found = false), in order. */
  function Split(text: string, ids: seq<string>, wrap: bool, found: bool): seq<string> {
    if ids == [] then []
    else
      var last := ids[|ids| - 1];
      Split(text, ids[..|ids| - 1], wrap, found) + (if Found(text, Wrapped(last, wrap)) == found then [last] else [])
  }

  /** An id is on the found side exactly when its token occurs in the text. */
  lemma {:induction false} SplitMembers(text: string, ids: seq<string>, wrap: bool, found: bool, x: string)
    ensures x in Split(text, ids, wrap, found) <==> x in ids && Found(text, Wrapped(x, wrap)) == found
  {
    if ids != [] {
      var init := ids[..|ids| - 1];
      SplitMembers(text, init, wrap, found, x);
      assert ids == init + [ids[|ids| - 1]];
    }
  }

  /** Present and missing together account for every id: present + missing = total. */
  lemma {:induction false} SplitSizes(text: string, ids: seq<string>, wrap: bool)
    ensures |Split(text, ids, wrap, true)| + |Split(text, ids, wrap, false)| == |ids|
  {
    if ids != [] {
      SplitSizes(text, ids[..|ids| - 1], wrap);
    }
  }

  /** Split maps concatenation to concatenation: both sides keep the ids' order. */
  lemma {:induction false} SplitAppend(text: string, a: seq<string>, b: seq<string>, wrap: bool, found: bool)
    ensures Split(text, a + b, wrap, found) == Split(text, a, wrap, found) + Split(text, b, wrap, found)
    decreases |b|
  {
    if b != [] {
      var b0 := b[..|b| - 1];
      assert (a + b)[..|a + b| - 1] == a + b0;
      SplitAppend(text, a, b0, wrap, found);
    } else {
      assert a + b == a;
    }
  }

  /** `(present if find_token(tok) else missing).append(_id)` over all ids. */
  method SplitIds(text: string, ids: seq<string>, wrap: bool) returns (present: seq<string>, missing: seq<string>)
    ensures present == Split(text, ids, wrap, true)
    ensures missing == Split(text, ids, wrap, false)
  {
    present, missing := [], [];
    for k := 0 to |ids|
      invariant present == Split(text, ids[..k], wrap, true)
      invariant missing == Split(text, ids[..k], wrap, false)
    {
      assert ids[..k + 1][..k] == ids[..k];
      if Found(text, Wrapped(ids[k], wrap)) {
        present := present + [ids[k]];
      } else {
        missing := missing + [ids[k]];
      }
    }
    assert ids[..|ids|] == ids;
  }

  /** `covered / total if total else 1.0`. */
  function Ratio(covered: nat, total: nat): (r: real)
    requires covered <= total
    ensures 0.0 <= r <= 1.0
    ensures r == 1.0 <==> covered == total
    ensures total > 0 ==> r * total as real == covered as real
  {
    if total == 0 then 1.0 else covered as real / total as real
  }

  /** The references of a test that do not occur verbatim in the text, in order. */
  function MissingRefs(text: string, refs: seq<string>): (r: seq<string>)
    ensures |r| <= |refs|
  {
    SplitSizes(text, refs, false);
    Split(text, refs, false, false)
  }

  /** A test passes exactly when every reference occurs verbatim. */
  lemma PassedIffAllFound(text: string, refs: seq<string>)
    ensures MissingRefs(text, refs) == [] <==> forall ref :: ref in refs ==> Found(text, ref)
  {
    forall x ensures x in MissingRefs(text, refs) <==> x in refs && !Found(text, x) {
      SplitMembers(text, refs, false, false, x);
    }
    if MissingRefs(text, refs) != [] {
      assert MissingRefs(text, refs)[0] in MissingRefs(text, refs);
    }
  }

  /** The phrases of a list that occur in a text, in list order (`if b in text.lower()`). */
  function FoundPhrases(text: string, phrases: seq<string>): seq<string> {
    Split(text, phrases, false, true)
  }

  lemma FoundPhrasesMembers(text: string, phrases: seq<string>, b: string)
    ensures b in FoundPhrases(text, phrases) <==> b in phrases && Contains(text, b)
  {
    SplitMembers(text, phrases, false, true, b);
  }
}
