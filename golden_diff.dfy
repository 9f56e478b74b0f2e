/**
 * The strict golden heading diff (golden_diff.py). The heading lines of a
 * compiled document (lines that start with '#', each trimmed and with its
 * whitespace runs collapsed to one space) must equal those of its golden copy,
 * in order. A comparison with a missing file on either side is skipped and
 * passes.
 *
 * The disk is a map from path to text; a path not in the map does not exist.
 */
module GoldenDiff {
  import opened Wrappers
  import opened Text

  /** `re.sub(r"\s+", " ", line.strip())`. */
  function Normalize(line: string): string {
    Collapse(Strip(line))
  }

  /** Whitespace occurs only as single ' ' characters. */
  predicate SingleSpaced(t: string) {
    && (forall i :: 0 <= i < |t| && IsSpace(t[i]) ==> t[i] == ' ')
    && (forall i :: 0 <= i < |t| - 1 ==> !(IsSpace(t[i]) && IsSpace(t[i + 1])))
  }

  /** Neither end is whitespace. */
  predicate Trimmed(t: string) {
    t != [] ==> !IsSpace(t[0]) && !IsSpace(t[|t| - 1])
  }

  /** A character put in front of a single-spaced text keeps it single-spaced when it is not a second space. */
  lemma SingleSpacedCons(c: char, t: string)
    requires SingleSpaced(t)
    requires IsSpace(c) ==> c == ' ' && (t != [] ==> !IsSpace(t[0]))
    ensures SingleSpaced([c] + t)
  {
    var r := [c] + t;
    forall i | 0 <= i < |r| - 1 ensures !(IsSpace(r[i]) && IsSpace(r[i + 1])) {
      if i > 0 { assert r[i] == t[i - 1] && r[i + 1] == t[i]; }
    }
    forall i | 0 <= i < |r| && IsSpace(r[i]) ensures r[i] == ' ' {
      if i > 0 { assert r[i] == t[i - 1]; }
    }
  }

  /** Collapsing leaves single spaces only, and keeps non-space ends where they were. */
  lemma {:induction false} CollapseShape(s: string)
    ensures SingleSpaced(Collapse(s))
    ensures Collapse(s) == [] <==> s == []
    ensures s != [] && !IsSpace(s[0]) ==> Collapse(s)[0] == s[0]
    ensures s != [] && !IsSpace(s[|s| - 1]) ==> Collapse(s)[|Collapse(s)| - 1] == s[|s| - 1]
    decreases |s|
  {
    if s != [] {
      if IsSpace(s[0]) {
        var t := TrimStart(s);
        CollapseShape(t);
        if t != [] {
          assert t[|t| - 1] == s[|s| - 1];
        }
        var r := Collapse(s);
        assert r == [' '] + Collapse(t);
        SingleSpacedCons(' ', Collapse(t));
      } else {
        var t := s[1..];
        CollapseShape(t);
        var r := Collapse(s);
        assert r == [s[0]] + Collapse(t);
        SingleSpacedCons(s[0], Collapse(t));
      }
    }
  }

  lemma SingleSpacedTail(t: string)
    requires t != [] && SingleSpaced(t)
    ensures SingleSpaced(t[1..])
  {
    var u := t[1..];
    forall i | 0 <= i < |u| - 1 ensures !(IsSpace(u[i]) && IsSpace(u[i + 1])) {
      assert u[i] == t[i + 1] && u[i + 1] == t[i + 2];
    }
    forall i | 0 <= i < |u| && IsSpace(u[i]) ensures u[i] == ' ' {
      assert u[i] == t[i + 1];
    }
  }

  /** A single space followed by a non-space is trimmed to what follows it. */
  lemma TrimOneSpace(t: string)
    requires t != [] && IsSpace(t[0]) && (|t| > 1 ==> !IsSpace(t[1]))
    ensures TrimStart(t) == t[1..]
  {
    if |t| > 1 {
      assert t[1..][0] == t[1];
    }
  }

  /** A single-spaced text is left as it is by collapsing. */
  lemma {:induction false} CollapseSingleSpaced(t: string)
    requires SingleSpaced(t)
    ensures Collapse(t) == t
    decreases |t|
  {
    if t != [] {
      SingleSpacedTail(t);
      CollapseSingleSpaced(t[1..]);
      if IsSpace(t[0]) {
        assert t[0] == ' ';
        assert |t| > 1 ==> !IsSpace(t[1]);
        TrimOneSpace(t);
        assert Collapse(t) == " " + Collapse(t[1..]);
        assert t == [t[0]] + t[1..];
      }
    }
  }

  /** Stripping leaves a text with no whitespace at either end. */
  lemma StripTrimmed(s: string)
    ensures Trimmed(Strip(s))
  {
    var a := TrimStart(s);
    var r := TrimEnd(a);
    if r != [] {
      assert r[0] == a[0];
    }
  }

  /** Stripping a text with no whitespace at its ends changes nothing. */
  lemma StripTrimmedId(t: string)
    requires Trimmed(t)
    ensures Strip(t) == t
  {
  }

  /** Normalising a heading twice gives what normalising it once gives. */
  lemma NormalizeIdempotent(line: string)
    ensures Normalize(Normalize(line)) == Normalize(line)
  {
    var s := Strip(line);
    var n := Collapse(s);
    StripTrimmed(line);
    CollapseShape(s);
    assert Trimmed(n);
    StripTrimmedId(n);
    CollapseSingleSpaced(n);
  }

  /** A normalised heading keeps its leading '#'. */
  lemma NormalizeKeepsHash(line: string)
    requires StartsWith(line, "#")
    ensures StartsWith(Normalize(line), "#")
  {
    assert line[0] == '#';
    assert TrimStart(line) == line;
    var s := Strip(line);
    assert s == TrimEnd(line);
    assert !IsSpace(line[0]);
    assert s != [] && s[0] == '#';
    CollapseShape(s);
  }

  /** The headings of a list of lines: every line starting with '#', normalised, in order. */
  function HeadingsOf(lines: seq<string>): seq<string> {
    if lines == [] then []
    else
      var last := lines[|lines| - 1];
      HeadingsOf(lines[..|lines| - 1]) + (if StartsWith(last, "#") then [Normalize(last)] else [])
  }

  lemma {:induction false} HeadingsOfAppend(a: seq<string>, b: seq<string>)
    ensures HeadingsOf(a + b) == HeadingsOf(a) + HeadingsOf(b)
    decreases |b|
  {
    if b != [] {
      var b0 := b[..|b| - 1];
      assert (a + b)[..|a + b| - 1] == a + b0;
      HeadingsOfAppend(a, b0);
    } else {
      assert a + b == a;
    }
  }

  /** Inserting or removing a line that is not a heading leaves the headings as they were. */
  lemma NonHeadingIrrelevant(a: seq<string>, line: string, b: seq<string>)
    requires !StartsWith(line, "#")
    ensures HeadingsOf(a + [line] + b) == HeadingsOf(a + b)
  {
    HeadingsOfAppend(a + [line], b);
    HeadingsOfAppend(a, [line]);
    HeadingsOfAppend(a, b);
    assert HeadingsOf([line]) == [] by {
      assert [line][..0] == [];
    }
  }

  /** Every heading is a normalised line that starts with '#', and is itself normalised. */
  lemma {:induction false} HeadingsOfShape(lines: seq<string>)
    ensures forall h :: h in HeadingsOf(lines) ==> StartsWith(h, "#") && Normalize(h) == h
  {
    if lines != [] {
      HeadingsOfShape(lines[..|lines| - 1]);
      var last := lines[|lines| - 1];
      if StartsWith(last, "#") {
        NormalizeKeepsHash(last);
        NormalizeIdempotent(last);
      }
    }
  }

  /** `headings_with_anchors`: appends the heading lines of the text in a loop. */
  method HeadingsWithAnchors(text: string) returns (heads: seq<string>)
    ensures heads == HeadingsOf(SplitLines(text))
  {
    var lines := SplitLines(text);
    heads := [];
    for i := 0 to |lines|
      invariant heads == HeadingsOf(lines[..i])
    {
      assert lines[..i + 1][..i] == lines[..i];
      if StartsWith(lines[i], "#") {
        heads := heads + [Normalize(lines[i])];
      }
    }
    assert lines[..|lines|] == lines;
  }

  /** `compare`: passes when a file is missing, otherwise exactly when the headings agree. */
  function Compare(golden: Option<string>, compiled: Option<string>): (ok: bool)
    ensures golden.None? || compiled.None? ==> ok
    ensures golden.Some? && compiled.Some? ==>
      (ok <==> |HeadingsOf(SplitLines(golden.value))| == |HeadingsOf(SplitLines(compiled.value))|
               && forall k :: 0 <= k < |HeadingsOf(SplitLines(golden.value))| ==>
                    HeadingsOf(SplitLines(golden.value))[k] == HeadingsOf(SplitLines(compiled.value))[k])
  {
    match (golden, compiled)
    case (Some(g), Some(c)) => HeadingsOf(SplitLines(g)) == HeadingsOf(SplitLines(c))
    case _ => true
  }

  /** Two compiled texts whose lines differ only in a non-heading line compare alike against any golden copy. */
  lemma CompareIgnoresNonHeadings(golden: string, a: seq<string>, line: string, b: seq<string>, c1: string, c2: string)
    requires !StartsWith(line, "#")
    requires SplitLines(c1) == a + [line] + b && SplitLines(c2) == a + b
    ensures Compare(Some(golden), Some(c1)) == Compare(Some(golden), Some(c2))
  {
    NonHeadingIrrelevant(a, line, b);
  }

  /** The text at a path, if the file exists. */
  function Read(disk: map<string, string>, path: string): Option<string> {
    if path in disk then Some(disk[path]) else None
  }

  const SrsGolden := "docs/goldens/SRS_golden.md"
  const SrsCompiled := "docs/out/SRS.md"
  const PromptGolden := "SPEC/goldens/Prompt_Runtime_Golden.md"
  const PromptCompiled := "Runtime_Prompt.md"

  /** `main`: the SRS comparison, and the runtime-prompt one when both of its files exist. */
  method Run(disk: map<string, string>) returns (ok: bool, code: int)
    ensures ok <==> Compare(Read(disk, SrsGolden), Read(disk, SrsCompiled)) && Compare(Read(disk, PromptGolden), Read(disk, PromptCompiled))
    ensures code == (if ok then 0 else 1)
  {
    ok := true;
    var srs := Compare(Read(disk, SrsGolden), Read(disk, SrsCompiled));
    ok := ok && srs;
    if PromptGolden in disk && PromptCompiled in disk {
      var rp := Compare(Read(disk, PromptGolden), Read(disk, PromptCompiled));
      ok := ok && rp;
    }
    code := if ok then 0 else 1;
  }
}
