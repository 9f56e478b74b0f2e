/**
 * The artifact impact check (impact_analysis.py): every generated artifact
 * must be newer than its inputs, and a commit that changes an input of an
 * artifact must also change the artifact.
 *
 * The file system is a value: the modification time (a natural number) of
 * every regular file and every directory, keyed by root-relative path.  The
 * change set, which the tool reads from `git diff`, is a parameter.
 */
module ImpactAnalysis {
  import opened Wrappers
  import opened Text

  datatype FileSystem = FileSystem(files: map<string, nat>, dirs: map<string, nat>)

  /** An output artifact and the input paths (files or directories) it is built from. */
  datatype Artifact = Artifact(output: string, inputs: seq<string>)

  const RuntimePrompt: string := "Runtime_Prompt.md"
  const SrsOut: string := "docs/out/SRS.md"

  /** The fixed artifact table, in its declared order. */
  const Artifacts: seq<Artifact> := [
    Artifact(RuntimePrompt, [
      "PromptSpec.yaml",
      "PromptPatches",
      "Prompt_Checklist.yaml",
      "Prompt_Checklist_v1.0.yaml",
      "prompt/prompt_sync_manifest.yaml",
      "sync_manifest.yaml"]),
    Artifact(SrsOut, [
      "docs/sources",
      "docs/templates/SRS_template.md",
      "docs/goldens/SRS_golden.md",
      "docs/registry.yaml",
      "doc_manifest.yaml"])
  ]

  /** One line of the report. */
  datatype Issue = MissingOutput(output: string) | Stale(output: string) | NotUpdated(artifact: string)

  function Message(e: Issue): string {
    match e
    case MissingOutput(o) => o + " missing but inputs exist; run build"
    case Stale(o) => o + " is older than its inputs; rebuild required"
    case NotUpdated(a) => "Impact analysis: inputs changed but artifact not updated in commit: " + a
  }

  predicate Exists(fs: FileSystem, p: string) {
    p in fs.files || p in fs.dirs
  }

  /** `mtime`: the modification time of a file or directory, 0 when the path does not exist. */
  function Mtime(fs: FileSystem, p: string): nat {
    if p in fs.files then fs.files[p] else if p in fs.dirs then fs.dirs[p] else 0
  }

  /** f lies (at any depth) inside directory d. */
  predicate Under(d: string, f: string) {
    StartsWith(f, d + "/")
  }

  /** The largest element of a set of times, 0 for the empty set. */
  ghost function SetMax(s: set<nat>): (m: nat)
    ensures forall x :: x in s ==> x <= m
    ensures s == {} ==> m == 0
    ensures s != {} ==> m in s
    decreases s
  {
    if s == {} then 0
    else
      var x :| x in s;
      var r := SetMax(s - {x});
      assert forall y :: y in s ==> y == x || y in s - {x};
      if x >= r then x else r
  }

  /** The maximum is determined by its two defining properties. */
  lemma SetMaxUnique(s: set<nat>, m: nat)
    requires forall x :: x in s ==> x <= m
    requires s == {} ==> m == 0
    requires s != {} ==> m in s
    ensures m == SetMax(s)
  {
  }

  /** The times of the files among seen that lie inside directory d. */
  ghost function TimesUnder(fs: FileSystem, d: string, seen: set<string>): set<nat> {
    set f | f in fs.files && f in seen && Under(d, f) :: fs.files[f]
  }

  /** The newest time `newest_under` reports for a path. */
  ghost function NewestTime(fs: FileSystem, p: string): nat {
    if p in fs.files then fs.files[p]
    else if p in fs.dirs then SetMax(TimesUnder(fs, p, fs.files.Keys))
    else 0
  }

  /**
   * A file's own time; for a directory the newest contained file (0 when it
   * holds none); 0 for a missing path.
   */
  lemma NewestTimeCases(fs: FileSystem, p: string)
    ensures p in fs.files ==> NewestTime(fs, p) == fs.files[p]
    ensures !Exists(fs, p) ==> NewestTime(fs, p) == 0
    ensures p !in fs.files && p in fs.dirs ==>
      && (forall f :: f in fs.files && Under(p, f) ==> fs.files[f] <= NewestTime(fs, p))
      && ((exists f :: f in fs.files && Under(p, f)) ==> exists f :: f in fs.files && Under(p, f) && fs.files[f] == NewestTime(fs, p))
      && ((forall f :: f in fs.files ==> !Under(p, f)) ==> NewestTime(fs, p) == 0)
  {
    if p !in fs.files && p in fs.dirs {
      var ts := TimesUnder(fs, p, fs.files.Keys);
      forall f | f in fs.files && Under(p, f) ensures fs.files[f] <= NewestTime(fs, p) {
        assert fs.files[f] in ts;
      }
      if exists f :: f in fs.files && Under(p, f) {
        var f :| f in fs.files && Under(p, f);
        assert fs.files[f] in ts;
      }
    }
  }

  /** `newest_under` by its loop over the files of the tree. */
  method NewestUnder(fs: FileSystem, p: string) returns (latest: nat)
    ensures latest == NewestTime(fs, p)
  {
    if p in fs.files {
      return fs.files[p];
    }
    latest := 0;
    if p in fs.dirs {
      var rest := fs.files.Keys;
      ghost var seen: set<string> := {};
      while rest != {}
        invariant rest + seen == fs.files.Keys && rest !! seen
        invariant latest == SetMax(TimesUnder(fs, p, seen))
        decreases rest
      {
        var f :| f in rest;
        ghost var before := TimesUnder(fs, p, seen);
        if Under(p, f) {
          latest := if fs.files[f] > latest then fs.files[f] else latest;
          assert TimesUnder(fs, p, seen + {f}) == before + {fs.files[f]};
        } else {
          assert TimesUnder(fs, p, seen + {f}) == before;
        }
        SetMaxUnique(TimesUnder(fs, p, seen + {f}), latest);
        seen := seen + {f};
        rest := rest - {f};
      }
    }
  }

  /** The newest time over a list of inputs (`latest_in`). */
  ghost function NewestOf(fs: FileSystem, inputs: seq<string>): nat {
    if inputs == [] then 0
    else
      var a := NewestOf(fs, inputs[..|inputs| - 1]);
      var b := NewestTime(fs, inputs[|inputs| - 1]);
      if b > a then b else a
  }

  /** The newest input is later than t exactly when some input's newest time is. */
  lemma {:induction false} NewestOfExceeds(fs: FileSystem, inputs: seq<string>, t: nat)
    ensures NewestOf(fs, inputs) > t <==> exists i :: i in inputs && NewestTime(fs, i) > t
  {
    if inputs != [] {
      var init := inputs[..|inputs| - 1];
      NewestOfExceeds(fs, init, t);
      if exists i :: i in inputs && NewestTime(fs, i) > t {
        var i :| i in inputs && NewestTime(fs, i) > t;
        if i != inputs[|inputs| - 1] {
          assert i in init;
        }
      }
      if exists i :: i in init && NewestTime(fs, i) > t {
        var i :| i in init && NewestTime(fs, i) > t;
        assert i in inputs;
      }
    }
  }

  /** The staleness conclusion `check_mtime` draws for one artifact. */
  ghost function MtimeIssue(fs: FileSystem, a: Artifact): Option<Issue> {
    if !Exists(fs, a.output) then
      if exists i :: i in a.inputs && Exists(fs, i) then Some(MissingOutput(a.output)) else None
    else
      var latestIn := NewestOf(fs, a.inputs);
      if latestIn != 0 && Mtime(fs, a.output) < latestIn then Some(Stale(a.output)) else None
  }

  /** The issues of a list of artifacts, in order. */
  ghost function MtimeIssues(fs: FileSystem, arts: seq<Artifact>): seq<Issue> {
    if arts == [] then []
    else
      var e := MtimeIssue(fs, arts[|arts| - 1]);
      MtimeIssues(fs, arts[..|arts| - 1]) + (if e.Some? then [e.value] else [])
  }

  /** A missing output is reported exactly when one of its inputs exists, and never as stale. */
  lemma MissingOutputIssue(fs: FileSystem, a: Artifact)
    requires !Exists(fs, a.output)
    ensures MtimeIssue(fs, a) == Some(MissingOutput(a.output)) <==> exists i :: i in a.inputs && Exists(fs, i)
    ensures MtimeIssue(fs, a) == None <==> forall i :: i in a.inputs ==> !Exists(fs, i)
  {
  }

  /**
   * An existing output is stale exactly when some input is strictly newer;
   * the output is never reported missing, and equal times pass.
   */
  lemma StaleIssue(fs: FileSystem, a: Artifact)
    requires Exists(fs, a.output)
    ensures MtimeIssue(fs, a) == Some(Stale(a.output)) <==> exists i :: i in a.inputs && NewestTime(fs, i) > Mtime(fs, a.output)
    ensures MtimeIssue(fs, a) == None <==> forall i :: i in a.inputs ==> NewestTime(fs, i) <= Mtime(fs, a.output)
  {
    NewestOfExceeds(fs, a.inputs, Mtime(fs, a.output));
  }

  /** `check_mtime`: one issue per artifact at most, in table order. */
  method CheckMtime(fs: FileSystem) returns (errors: seq<Issue>)
    ensures errors == MtimeIssues(fs, Artifacts)
  {
    errors := [];
    for k := 0 to |Artifacts|
      invariant errors == MtimeIssues(fs, Artifacts[..k])
    {
      var a := Artifacts[k];
      var e := ArtifactIssue(fs, a);
      assert Artifacts[..k + 1][..k] == Artifacts[..k];
      if e.Some? {
        errors := errors + [e.value];
      }
    }
    assert Artifacts[..|Artifacts|] == Artifacts;
  }

  /** The body of the loop of `check_mtime` for one artifact. */
  method ArtifactIssue(fs: FileSystem, a: Artifact) returns (e: Option<Issue>)
    ensures e == MtimeIssue(fs, a)
  {
    if !Exists(fs, a.output) {
      var any := false;
      for j := 0 to |a.inputs|
        invariant any <==> exists i :: i in a.inputs[..j] && Exists(fs, i)
      {
        any := any || Exists(fs, a.inputs[j]);
        assert a.inputs[..j + 1] == a.inputs[..j] + [a.inputs[j]];
      }
      assert a.inputs[..|a.inputs|] == a.inputs;
      return if any then Some(MissingOutput(a.output)) else None;
    }
    var latestIn: nat := 0;
    for j := 0 to |a.inputs|
      invariant latestIn == NewestOf(fs, a.inputs[..j])
    {
      var t := NewestUnder(fs, a.inputs[j]);
      assert a.inputs[..j + 1][..j] == a.inputs[..j];
      latestIn := if t > latestIn then t else latestIn;
    }
    assert a.inputs[..|a.inputs|] == a.inputs;
    if latestIn != 0 && Mtime(fs, a.output) < latestIn {
      return Some(Stale(a.output));
    }
    return None;
  }

  /** Some changed path starts with one of the artifact's inputs. */
  ghost predicate Impacts(a: Artifact, changes: set<string>) {
    exists i, c :: i in a.inputs && c in changes && StartsWith(c, i)
  }

  /** `map_impacts`: the outputs of the artifacts one of whose inputs prefixes a changed path. */
  method MapImpacts(changes: set<string>) returns (impacted: set<string>)
    ensures forall o :: o in impacted <==> exists a :: a in Artifacts && a.output == o && Impacts(a, changes)
    ensures impacted <= {RuntimePrompt, SrsOut}
    ensures changes == {} ==> impacted == {}
  {
    impacted := {};
    for k := 0 to |Artifacts|
      invariant forall o :: o in impacted <==> exists a :: a in Artifacts[..k] && a.output == o && Impacts(a, changes)
    {
      var a := Artifacts[k];
      var hit := InputsPrefixChange(a, changes);
      if hit {
        impacted := impacted + {a.output};
      }
      assert Artifacts[..k + 1] == Artifacts[..k] + [a];
    }
    assert Artifacts[..|Artifacts|] == Artifacts;
  }

  /** The two inner loops of `map_impacts` for one artifact. */
  method InputsPrefixChange(a: Artifact, changes: set<string>) returns (hit: bool)
    ensures hit <==> Impacts(a, changes)
  {
    hit := false;
    for j := 0 to |a.inputs|
      invariant hit <==> exists i, c :: i in a.inputs[..j] && c in changes && StartsWith(c, i)
    {
      var i := a.inputs[j];
      var rest := changes;
      while rest != {}
        invariant rest <= changes
        invariant hit <==> (exists i, c :: i in a.inputs[..j] && c in changes && StartsWith(c, i))
                           || exists c :: c in changes - rest && StartsWith(c, i)
        decreases rest
      {
        var c :| c in rest;
        if StartsWith(c, i) {
          hit := true;
        }
        rest := rest - {c};
      }
      assert a.inputs[..j + 1] == a.inputs[..j] + [i];
    }
    assert a.inputs[..|a.inputs|] == a.inputs;
  }

  /** `outputs_changed`: the changed paths that are one of the two generated outputs. */
  function OutputsChanged(changes: set<string>): (r: set<string>)
    ensures forall x :: x in r <==> x in changes && exists a :: a in Artifacts && a.output == x
  {
    assert Artifacts[0].output == RuntimePrompt && Artifacts[1].output == SrsOut;
    {RuntimePrompt, SrsOut} * changes
  }

  /** The exit status of the check: 1 when anything was reported. */
  function ExitCode(errs: seq<Issue>): int {
    if errs == [] then 0 else 1
  }

  /**
   * `main`: the staleness issues in table order, then (when anything changed)
   * one issue for each impacted artifact the change set does not contain.
   */
  method RunChecks(fs: FileSystem, changes: set<string>) returns (errs: seq<Issue>, exitCode: int)
    ensures |errs| >= |MtimeIssues(fs, Artifacts)| && errs[..|MtimeIssues(fs, Artifacts)|] == MtimeIssues(fs, Artifacts)
    ensures forall e :: e in errs[|MtimeIssues(fs, Artifacts)|..] <==>
      exists a :: a in Artifacts && e == NotUpdated(a.output) && Impacts(a, changes) && a.output !in changes
    ensures Distinct(errs[|MtimeIssues(fs, Artifacts)|..])
    ensures exitCode == ExitCode(errs)
  {
    errs := CheckMtime(fs);
    ghost var n := |errs|;
    if changes != {} {
      var impacted := MapImpacts(changes);
      var outChanges := OutputsChanged(changes);
      var rest := impacted;
      while rest != {}
        invariant rest <= impacted && |errs| >= n && errs[..n] == MtimeIssues(fs, Artifacts)
        invariant forall e :: e in errs[n..] <==> exists art :: art in impacted - rest && art !in outChanges && e == NotUpdated(art)
        invariant Distinct(errs[n..])
        decreases rest
      {
        var art :| art in rest;
        if art !in outChanges {
          ghost var old_errs := errs;
          assert NotUpdated(art) !in old_errs[n..];
          errs := errs + [NotUpdated(art)];
          assert errs[n..] == old_errs[n..] + [NotUpdated(art)];
        }
        rest := rest - {art};
      }
    }
    exitCode := ExitCode(errs);
  }

  ghost predicate Distinct(xs: seq<Issue>) {
    forall i, j :: 0 <= i < j < |xs| ==> xs[i] != xs[j]
  }

  /**
   * The check passes exactly when no artifact is missing or stale and every
   * artifact whose inputs changed was changed in the same commit.
   */
  lemma PassesIff(fs: FileSystem, changes: set<string>, errs: seq<Issue>)
    requires |errs| >= |MtimeIssues(fs, Artifacts)| && errs[..|MtimeIssues(fs, Artifacts)|] == MtimeIssues(fs, Artifacts)
    requires forall e :: e in errs[|MtimeIssues(fs, Artifacts)|..] <==>
      exists a :: a in Artifacts && e == NotUpdated(a.output) && Impacts(a, changes) && a.output !in changes
    ensures ExitCode(errs) == 0 <==>
      MtimeIssues(fs, Artifacts) == [] && forall a :: a in Artifacts && Impacts(a, changes) ==> a.output in changes
  {
    var n := |MtimeIssues(fs, Artifacts)|;
    if ExitCode(errs) == 0 {
      assert errs[n..] == [];
      forall a | a in Artifacts && Impacts(a, changes) ensures a.output in changes {
        assert NotUpdated(a.output) !in errs[n..];
      }
    }
    if MtimeIssues(fs, Artifacts) == [] && forall a :: a in Artifacts && Impacts(a, changes) ==> a.output in changes {
      if errs != [] {
        assert errs[0] in errs[n..];
      }
    }
  }

  /** Without changes the only issues are the staleness ones. */
  lemma NoChangesNoImpact(a: Artifact)
    ensures !Impacts(a, {})
  {
  }
}
