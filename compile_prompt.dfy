/**
 * The prompt compiler (compile_prompt.py): an id index over the section tree,
 * the patch operations (replace, append, prepend, remove) applied through that
 * index, and the Markdown rendering with hierarchical numbering.
 *
 * A section is its map of string fields ("id", "title", "content", ...) and
 * its list of children. A section is identified by its path: the 0-based
 * positions leading to it from the top-level list. The index maps an id to
 * such a path where the source keeps a reference to the section object itself.
 */
module CompilePrompt {
  import opened Wrappers
  import opened Text

  datatype Section = Section(fields: map<string, string>, children: seq<Section>)

  type Path = seq<nat>

  /** `d.get(k, default)`. */
  function Get(fields: map<string, string>, k: string, default: string): string {
    if k in fields then fields[k] else default
  }

  /** `s.get("id")` as an option. */
  function IdOf(s: Section): Option<string> {
    if "id" in s.fields then Some(s.fields["id"]) else None
  }

  /** `if sid:` on an optional string. */
  predicate HasId(s: Section) {
    IdOf(s).Some? && IdOf(s).value != ""
  }

  // ---------------------------------------------------------------------------
  // Paths into the tree

  /** The section at a path, if there is one. */
  function At(ss: seq<Section>, path: Path): Option<Section>
    decreases |path|
  {
    if path == [] || path[0] >= |ss| then None
    else if |path| == 1 then Some(ss[path[0]])
    else At(ss[path[0]].children, path[1..])
  }

  /** The tree with one field of the section at `path` set to v (no change for a path that is not there). */
  function SetField(ss: seq<Section>, path: Path, f: string, v: string): (r: seq<Section>)
    ensures |r| == |ss|
    decreases |path|
  {
    if path == [] || path[0] >= |ss| then ss
    else
      var s := ss[path[0]];
      if |path| == 1 then ss[path[0] := Section(s.fields[f := v], s.children)]
      else ss[path[0] := Section(s.fields, SetField(s.children, path[1..], f, v))]
  }

  /** The fields and the number of children of the section at a path. */
  function Shape(ss: seq<Section>, path: Path): Option<(map<string, string>, nat)> {
    match At(ss, path)
    case None => None
    case Some(s) => Some((s.fields, |s.children|))
  }

  /**
   * Setting a field changes that field of the section at that path and nothing
   * else: every other section keeps its fields, and the tree keeps its shape.
   */
  lemma {:induction false} SetFieldEffect(ss: seq<Section>, p: Path, f: string, v: string, q: Path)
    ensures Shape(SetField(ss, p, f, v), q) ==
      if q == p && At(ss, p).Some? then Some((At(ss, p).value.fields[f := v], |At(ss, p).value.children|)) else Shape(ss, q)
    decreases |q|
  {
    var r := SetField(ss, p, f, v);
    if q != [] && q[0] < |ss| && p != [] && p[0] < |ss| && q[0] == p[0] && |q| > 1 && |p| > 1 {
      var k := p[0];
      SetFieldEffect(ss[k].children, p[1..], f, v, q[1..]);
      assert r[k].children == SetField(ss[k].children, p[1..], f, v);
      assert At(r, q) == At(r[k].children, q[1..]);
      assert q == p <==> q[1..] == p[1..] by {
        if q[1..] == p[1..] { assert q == [q[0]] + q[1..] && p == [p[0]] + p[1..]; }
      }
      if q == p {
        AtSome(ss, p);
      }
    } else if q != [] && q[0] < |ss| && p != [] && p[0] < |ss| && q[0] == p[0] {
      if |q| == 1 && |p| == 1 {
        assert q == p;
      } else if |q| == 1 {
        assert q != p;
      } else {
        assert q != p;
        assert r[q[0]].children == ss[q[0]].children;
      }
    } else if q != [] && q[0] < |ss| {
      assert q != p || At(ss, p).None?;
      if p != [] && p[0] < |ss| {
        assert r[q[0]] == ss[q[0]];
      }
    }
  }

  lemma AtSome(ss: seq<Section>, p: Path)
    requires p != [] && p[0] < |ss| && |p| > 1
    ensures At(ss, p) == At(ss[p[0]].children, p[1..])
  {
  }

  // ---------------------------------------------------------------------------
  // Preorder and the id index

  /** Every section with its path, each section before its children (`extend` order). */
  function Preorder(ss: seq<Section>, prefix: Path): seq<(Path, Section)>
    decreases ss
  {
    if ss == [] then []
    else
      var k: nat := |ss| - 1;
      Preorder(ss[..k], prefix) + [(prefix + [k], ss[k])] + Preorder(ss[k].children, prefix + [k])
  }

  /** Every entry of the preorder is the section found at its path. */
  lemma {:induction false} PreorderSound(ss: seq<Section>, prefix: Path, e: (Path, Section))
    requires e in Preorder(ss, prefix)
    ensures |prefix| < |e.0| && e.0[..|prefix|] == prefix && At(ss, e.0[|prefix|..]) == Some(e.1)
    decreases ss
  {
    var k: nat := |ss| - 1;
    var init := ss[..k];
    if e in Preorder(init, prefix) {
      PreorderSound(init, prefix, e);
      var q := e.0[|prefix|..];
      assert q[0] < k && At(ss, q) == At(init, q) by {
        AtPrefixList(ss, k, q);
      }
    } else if e == (prefix + [k], ss[k]) {
      assert e.0[|prefix|..] == [k];
    } else {
      assert e in Preorder(ss[k].children, prefix + [k]);
      PreorderSound(ss[k].children, prefix + [k], e);
      var q := e.0[|prefix|..];
      var q1 := e.0[|prefix| + 1..];
      assert e.0[..|prefix| + 1] == prefix + [k];
      assert e.0[..|prefix|] == prefix by {
        assert e.0[..|prefix|] == e.0[..|prefix| + 1][..|prefix|];
      }
      assert q == [k] + q1 by {
        assert q[0] == e.0[|prefix|] == (prefix + [k])[|prefix|];
        assert q[1..] == q1;
      }
      assert q1 == (e.0[|prefix + [k]|..]);
      assert At(ss, q) == At(ss[k].children, q1);
    }
  }

  /** A path into the first k sections finds the same section in the whole list. */
  lemma AtPrefixList(ss: seq<Section>, k: nat, q: Path)
    requires k <= |ss| && At(ss[..k], q).Some?
    ensures q[0] < k && At(ss, q) == At(ss[..k], q)
  {
  }

  /** Every section of the tree appears in the preorder at its path. */
  lemma {:induction false} PreorderComplete(ss: seq<Section>, prefix: Path, q: Path)
    requires At(ss, q).Some?
    ensures (prefix + q, At(ss, q).value) in Preorder(ss, prefix)
    decreases ss
  {
    var k: nat := |ss| - 1;
    var init := ss[..k];
    if q[0] < k {
      assert At(init, q) == At(ss, q) by {
        if |q| > 1 { assert init[q[0]] == ss[q[0]]; }
      }
      PreorderComplete(init, prefix, q);
    } else if |q| > 1 {
      PreorderComplete(ss[k].children, prefix + [k], q[1..]);
      assert prefix + [k] + q[1..] == prefix + q by {
        assert q == [k] + q[1..];
      }
    } else {
      assert q == [k];
    }
  }

  /** The index a list of visited sections leaves: each truthy id mapped to its path, later visits winning. */
  function IndexFold(es: seq<(Path, Section)>, idx: map<string, Path>): map<string, Path> {
    if es == [] then idx
    else
      var e := es[|es| - 1];
      var m := IndexFold(es[..|es| - 1], idx);
      if HasId(e.1) then m[IdOf(e.1).value := e.0] else m
  }

  /**
   * An id is in the index exactly when some visited section carries it, and it
   * maps to the path of the last section visited with that id.
   */
  lemma {:induction false} IndexFoldLast(es: seq<(Path, Section)>, id: string)
    ensures id in IndexFold(es, map[]) <==> exists i :: 0 <= i < |es| && HasId(es[i].1) && IdOf(es[i].1).value == id
    ensures id in IndexFold(es, map[]) ==>
      exists i :: 0 <= i < |es| && HasId(es[i].1) && IdOf(es[i].1).value == id && IndexFold(es, map[])[id] == es[i].0
               && forall j :: i < j < |es| ==> !(HasId(es[j].1) && IdOf(es[j].1).value == id)
  {
    if es != [] {
      var n := |es| - 1;
      var init := es[..n];
      IndexFoldLast(init, id);
      var e := es[n];
      if HasId(e.1) && IdOf(e.1).value == id {
        assert IndexFold(es, map[])[id] == es[n].0;
      } else {
        assert IndexFold(es, map[]) == IndexFold(init, map[]) || (HasId(e.1) && IdOf(e.1).value != id);
        if exists i :: 0 <= i < |init| && HasId(init[i].1) && IdOf(init[i].1).value == id {
          var i :| 0 <= i < |init| && HasId(init[i].1) && IdOf(init[i].1).value == id && IndexFold(init, map[])[id] == init[i].0
                && forall j :: i < j < |init| ==> !(HasId(init[j].1) && IdOf(init[j].1).value == id);
          assert es[i] == init[i];
          forall j | i < j < |es| ensures !(HasId(es[j].1) && IdOf(es[j].1).value == id) {
            if j < n { assert es[j] == init[j]; }
          }
        }
        if exists i :: 0 <= i < |es| && HasId(es[i].1) && IdOf(es[i].1).value == id {
          var i :| 0 <= i < |es| && HasId(es[i].1) && IdOf(es[i].1).value == id;
          assert i < n && init[i] == es[i];
        }
      }
    }
  }

  lemma {:induction false} IndexFoldAppend(a: seq<(Path, Section)>, b: seq<(Path, Section)>, idx: map<string, Path>)
    ensures IndexFold(a + b, idx) == IndexFold(b, IndexFold(a, idx))
    decreases |b|
  {
    if b == [] {
      assert a + b == a;
    } else {
      var b0 := b[..|b| - 1];
      assert (a + b)[..|a + b| - 1] == a + b0;
      IndexFoldAppend(a, b0, idx);
    }
  }

  /** `index_sections`: visits the sections in order, recursing into children, filling the index. */
  method IndexSections(ss: seq<Section>, prefix: Path, idx0: map<string, Path>) returns (idx: map<string, Path>)
    ensures idx == IndexFold(Preorder(ss, prefix), idx0)
    decreases ss
  {
    idx := idx0;
    for k := 0 to |ss|
      invariant idx == IndexFold(Preorder(ss[..k], prefix), idx0)
    {
      var s := ss[k];
      assert ss[..k + 1][..k] == ss[..k];
      ghost var before := idx;
      if HasId(s) {
        idx := idx[IdOf(s).value := prefix + [k]];
      }
      assert idx == IndexFold(Preorder(ss[..k], prefix) + [(prefix + [k], s)], idx0);
      if s.children != [] {
        idx := IndexSections(s.children, prefix + [k], idx);
      }
      IndexFoldAppend(Preorder(ss[..k], prefix) + [(prefix + [k], s)], Preorder(s.children, prefix + [k]), idx0);
    }
    assert ss[..|ss|] == ss;
  }

  /** The index `apply_patches` builds over the whole tree. */
  function IndexOf(ss: seq<Section>): map<string, Path> {
    IndexFold(Preorder(ss, []), map[])
  }

  /** Each indexed path finds a section carrying that id. */
  lemma IndexOfSound(ss: seq<Section>, id: string)
    requires id in IndexOf(ss)
    ensures At(ss, IndexOf(ss)[id]).Some? && IdOf(At(ss, IndexOf(ss)[id]).value) == Some(id)
  {
    var es := Preorder(ss, []);
    IndexFoldLast(es, id);
    var i :| 0 <= i < |es| && HasId(es[i].1) && IdOf(es[i].1).value == id && IndexOf(ss)[id] == es[i].0;
    PreorderSound(ss, [], es[i]);
    assert es[i].0[0..] == es[i].0;
  }

  /** Every section with a truthy id is reachable through the index by that id. */
  lemma IndexOfComplete(ss: seq<Section>, q: Path)
    requires At(ss, q).Some? && HasId(At(ss, q).value)
    ensures IdOf(At(ss, q).value).value in IndexOf(ss)
  {
    PreorderComplete(ss, [], q);
    var es := Preorder(ss, []);
    var i :| 0 <= i < |es| && es[i] == ([] + q, At(ss, q).value);
    IndexFoldLast(es, IdOf(At(ss, q).value).value);
  }

  // ---------------------------------------------------------------------------
  // Patches

  /** A patch as written: every key is optional. */
  datatype Patch = Patch(targetId: Option<string>, field: Option<string>, op: Option<string>, value: Option<string>)

  /** The new field value an operation computes from the current one; None for an unknown op. */
  function NewValue(op: string, cur: string, val: string): Option<string> {
    if op == "replace" then Some(val)
    else if op == "append" then Some(cur + val)
    else if op == "prepend" then Some(val + cur)
    else if op == "remove" then Some("")
    else None
  }

  /** One iteration of `apply_patches`, with the index built before the first patch. */
  function ApplyPatch(ss: seq<Section>, idx: map<string, Path>, p: Patch): seq<Section> {
    if p.targetId.None? || p.targetId.value !in idx then ss
    else
      var path := idx[p.targetId.value];
      match At(ss, path)
      case None => ss
      case Some(node) =>
        var field := p.field.GetOr("content");
        match NewValue(p.op.GetOr("replace"), Get(node.fields, field, ""), p.value.GetOr(""))
        case None => ss
        case Some(v) => SetField(ss, path, field, v)
  }

  /** A patch whose target is not indexed, or whose op is unknown, changes nothing. */
  lemma PatchSkipped(ss: seq<Section>, idx: map<string, Path>, p: Patch)
    requires p.targetId.None? || p.targetId.value !in idx
          || p.op.GetOr("replace") !in {"replace", "append", "prepend", "remove"}
    ensures ApplyPatch(ss, idx, p) == ss
  {
  }

  /**
   * A patch whose target is indexed sets the targeted field (default "content")
   * of the targeted section as its op (default "replace") says, and no other
   * field of any section changes.
   */
  lemma PatchEffect(ss: seq<Section>, idx: map<string, Path>, p: Patch, q: Path)
    requires p.targetId.Some? && p.targetId.value in idx && At(ss, idx[p.targetId.value]).Some?
    ensures var path := idx[p.targetId.value];
            var node := At(ss, path).value;
            var field := p.field.GetOr("content");
            var cur := Get(node.fields, field, "");
            var val := p.value.GetOr("");
            var op := p.op.GetOr("replace");
            Shape(ApplyPatch(ss, idx, p), q) ==
              if q == path then
                Some((if op == "replace" then node.fields[field := val]
                      else if op == "append" then node.fields[field := cur + val]
                      else if op == "prepend" then node.fields[field := val + cur]
                      else if op == "remove" then node.fields[field := ""]
                      else node.fields, |node.children|))
              else Shape(ss, q)
  {
    var path := idx[p.targetId.value];
    var field := p.field.GetOr("content");
    SetFieldEffect(ss, path, field, NewValue(p.op.GetOr("replace"), Get(At(ss, path).value.fields, field, ""), p.value.GetOr("")).GetOr(""), q);
  }

  /** The patches applied one after the other, in list order. */
  function ApplyAll(ss: seq<Section>, idx: map<string, Path>, ps: seq<Patch>): seq<Section> {
    if ps == [] then ss else ApplyPatch(ApplyAll(ss, idx, ps[..|ps| - 1]), idx, ps[|ps| - 1])
  }

  /** A patch never changes the shape of the tree, so the index stays valid for later patches. */
  lemma {:induction false} ApplyAllKeepsShape(ss: seq<Section>, idx: map<string, Path>, ps: seq<Patch>, q: Path)
    ensures At(ApplyAll(ss, idx, ps), q).Some? <==> At(ss, q).Some?
  {
    if ps != [] {
      var mid := ApplyAll(ss, idx, ps[..|ps| - 1]);
      ApplyAllKeepsShape(ss, idx, ps[..|ps| - 1], q);
      var p := ps[|ps| - 1];
      if p.targetId.Some? && p.targetId.value in idx && At(mid, idx[p.targetId.value]).Some? {
        PatchEffect(mid, idx, p, q);
      }
    }
  }

  /** `apply_patches`: index the tree once, then apply each patch in order. */
  method ApplyPatches(ss: seq<Section>, patches: seq<Patch>) returns (result: seq<Section>)
    ensures result == ApplyAll(ss, IndexOf(ss), patches)
  {
    var idx := IndexSections(ss, [], map[]);
    result := ss;
    for i := 0 to |patches|
      invariant result == ApplyAll(ss, idx, patches[..i])
    {
      assert patches[..i + 1][..i] == patches[..i];
      result := ApplyPatch(result, idx, patches[i]);
    }
    assert patches[..|patches|] == patches;
  }

  // ---------------------------------------------------------------------------
  // Rendering

  /** `'#' * n` (empty for n <= 0). */
  function Hashes(n: int): (r: string)
    ensures |r| == if n <= 0 then 0 else n
    ensures forall i :: 0 <= i < |r| ==> r[i] == '#'
  {
    if n <= 0 then "" else "#" + Hashes(n - 1)
  }

  /** `f"# {'#'*(level-1)}{number}. {title}  [{sid}]"`. */
  function Heading(level: int, number: string, s: Section): string {
    "# " + Hashes(level - 1) + number + ". " + Get(s.fields, "title", "") + "  [" + Get(s.fields, "id", "") + "]"
  }

  /** The stripped content and a blank line, when the stripped content is not empty. */
  function ContentLines(s: Section): seq<string> {
    var content := Strip(Get(s.fields, "content", ""));
    if content != "" then [content, ""] else []
  }

  /** The `md` list of `render_md`: for each section its heading, its content, and its children's rendering as one entry. */
  function RenderBlocks(ss: seq<Section>, level: int, prefix: string): seq<string>
    decreases ss
  {
    if ss == [] then []
    else
      var k: nat := |ss| - 1;
      var s := ss[k];
      var number := prefix + NatToString(k + 1);
      RenderBlocks(ss[..k], level, prefix) + [Heading(level, number, s)] + ContentLines(s)
      + (if s.children != [] then [Join(RenderBlocks(s.children, level + 1, number + "."), "\n")] else [])
  }

  /** One more section adds its heading, its content lines and its children's rendering. */
  lemma RenderBlocksStep(ss: seq<Section>, k: nat, level: int, prefix: string, head: seq<string>, body: seq<string>, sub: seq<string>)
    requires k < |ss|
    requires head == [Heading(level, prefix + NatToString(k + 1), ss[k])]
    requires body == ContentLines(ss[k])
    requires sub == if ss[k].children != [] then [Join(RenderBlocks(ss[k].children, level + 1, prefix + NatToString(k + 1) + "."), "\n")] else []
    ensures RenderBlocks(ss[..k + 1], level, prefix) == RenderBlocks(ss[..k], level, prefix) + head + body + sub
  {
    var xs := ss[..k + 1];
    assert |xs| - 1 == k;
    assert xs[..k] == ss[..k];
    assert xs[k] == ss[k];
  }

  /** `render_md(sections, level, prefix)`. */
  function Render(ss: seq<Section>, level: int, prefix: string): string {
    Join(RenderBlocks(ss, level, prefix), "\n")
  }

  /** `render_md`: appends each section's lines to `md` in a loop, recursing into children. */
  method RenderMd(ss: seq<Section>, level: int, prefix: string) returns (text: string)
    ensures text == Render(ss, level, prefix)
    decreases ss
  {
    var md: seq<string> := [];
    for k := 0 to |ss|
      invariant md == RenderBlocks(ss[..k], level, prefix)
    {
      var s := ss[k];
      var number := prefix + NatToString(k + 1);
      var head := [Heading(level, number, s)];
      var content := Strip(Get(s.fields, "content", ""));
      var body: seq<string> := [];
      if content != "" {
        body := [content, ""];
      }
      var sub: seq<string> := [];
      if s.children != [] {
        var child := RenderMd(s.children, level + 1, number + ".");
        sub := [child];
      }
      RenderBlocksStep(ss, k, level, prefix, head, body, sub);
      md := md + head + body + sub;
    }
    assert ss[..|ss|] == ss;
    text := Join(md, "\n");
  }

  /** The 1-based dotted number of a path: [0, 2] is "1.3". */
  function Dotted(path: Path): string {
    Join(seq(|path|, i requires 0 <= i < |path| => NatToString(path[i] + 1)), ".")
  }

  /** The numbering prefix `render_md` passes to the children of the section at a path. */
  function PrefixOf(path: Path): string {
    if path == [] then "" else Dotted(path) + "."
  }

  /**
   * The document as a flat list of lines, in preorder: each section's heading
   * at depth `|path|` numbered by its dotted path, followed by its content lines.
   */
  function Lines(ss: seq<Section>, path: Path): seq<string>
    decreases ss
  {
    if ss == [] then []
    else
      var k: nat := |ss| - 1;
      Lines(ss[..k], path) + [Heading(|path| + 1, Dotted(path + [k]), ss[k])] + ContentLines(ss[k]) + Lines(ss[k].children, path + [k])
  }

  lemma Assoc<T>(a: seq<T>, b: seq<T>, c: seq<T>)
    ensures a + b + c == a + (b + c)
  {
  }

  lemma ConcatAssoc<T>(a: seq<T>, b: seq<T>, c: seq<T>, d: seq<T>)
    ensures a + b + c + d == a + (b + c) + d
    ensures a + b + c + d == a + (b + c + d)
  {
  }

  /** `sep.join` over a concatenation. */
  lemma {:induction false} JoinAppend(a: seq<string>, b: seq<string>, sep: string)
    requires a != [] && b != []
    ensures Join(a + b, sep) == Join(a, sep) + sep + Join(b, sep)
    decreases |a|
  {
    if |a| == 1 {
      assert (a + b)[1..] == b;
    } else {
      assert (a + b)[1..] == a[1..] + b;
      JoinAppend(a[1..], b, sep);
    }
  }

  /** Extending a path by one position extends its number by ".k+1". */
  lemma DottedAppend(path: Path, k: nat)
    ensures Dotted(path + [k]) == PrefixOf(path) + NatToString(k + 1)
  {
    var xs := seq(|path|, i requires 0 <= i < |path| => NatToString(path[i] + 1));
    var ys := seq(|path + [k]|, i requires 0 <= i < |path + [k]| => NatToString((path + [k])[i] + 1));
    assert ys == xs + [NatToString(k + 1)];
    if path != [] {
      JoinAppend(xs, [NatToString(k + 1)], ".");
    }
  }

  lemma {:induction false} LinesEmpty(ss: seq<Section>, path: Path)
    ensures Lines(ss, path) == [] <==> ss == []
  {
  }

  /**
   * Rendering with the numbering prefix of a path gives the flat preorder
   * document: nested renderings joined with newlines are the children's lines.
   */
  lemma {:induction false} RenderIsLines(ss: seq<Section>, path: Path)
    ensures RenderBlocks(ss, |path| + 1, PrefixOf(path)) == [] <==> ss == []
    ensures Render(ss, |path| + 1, PrefixOf(path)) == Join(Lines(ss, path), "\n")
    decreases ss
  {
    if ss != [] {
      var k: nat := |ss| - 1;
      var s := ss[k];
      var init := ss[..k];
      var sub: Path := path + [k];
      var level := |path| + 1;
      var prefix := PrefixOf(path);
      var number := prefix + NatToString(k + 1);
      DottedAppend(path, k);
      assert number == Dotted(sub);
      assert PrefixOf(sub) == number + ".";
      assert |sub| + 1 == level + 1;
      RenderIsLines(init, path);
      RenderIsLines(s.children, sub);
      LinesEmpty(s.children, sub);
      LinesEmpty(init, path);
      var h, c := [Heading(level, number, s)], ContentLines(s);
      var x := if s.children != [] then [Join(RenderBlocks(s.children, level + 1, number + "."), "\n")] else [];
      var l := Lines(s.children, sub);
      var rInit, lInit := RenderBlocks(init, level, prefix), Lines(init, path);
      assert Join(h + c + x, "\n") == Join(h + c + l, "\n") by {
        if s.children != [] {
          JoinAppend(h + c, x, "\n");
          JoinAppend(h + c, l, "\n");
        } else {
          assert x == [] && l == [];
          assert h + c + x == h + c && h + c + l == h + c;
        }
      }
      assert RenderBlocks(ss, level, prefix) == rInit + h + c + x;
      ConcatAssoc(rInit, h, c, x);
      assert Lines(ss, path) == lInit + h + c + l;
      ConcatAssoc(lInit, h, c, l);
      if init != [] {
        JoinAppend(rInit, h + c + x, "\n");
        JoinAppend(lInit, h + c + l, "\n");
      } else {
        assert rInit == [] && lInit == [];
        assert rInit + (h + c + x) == h + c + x;
        assert lInit + (h + c + l) == h + c + l;
      }
    }
  }

  /** The lines a preorder entry contributes: its heading and its content lines. */
  function EntryLines(e: (Path, Section)): seq<string> {
    [Heading(|e.0|, Dotted(e.0), e.1)] + ContentLines(e.1)
  }

  function FlatLines(es: seq<(Path, Section)>): seq<string> {
    if es == [] then [] else FlatLines(es[..|es| - 1]) + EntryLines(es[|es| - 1])
  }

  lemma {:induction false} FlatLinesAppend(a: seq<(Path, Section)>, b: seq<(Path, Section)>)
    ensures FlatLines(a + b) == FlatLines(a) + FlatLines(b)
    decreases |b|
  {
    if b == [] {
      assert a + b == a;
    } else {
      var b0, e := b[..|b| - 1], b[|b| - 1];
      assert (a + b)[..|a + b| - 1] == a + b0;
      assert (a + b)[|a + b| - 1] == e;
      FlatLinesAppend(a, b0);
      var fa, fb, le := FlatLines(a), FlatLines(b0), EntryLines(e);
      assert FlatLines(a + b) == fa + fb + le;
      Assoc(fa, fb, le);
    }
  }

  /** The document lines are, section by section in preorder, each section's heading and content. */
  lemma {:induction false} LinesArePreorder(ss: seq<Section>, path: Path)
    ensures Lines(ss, path) == FlatLines(Preorder(ss, path))
    decreases ss
  {
    if ss != [] {
      var k: nat := |ss| - 1;
      var s := ss[k];
      var sub: Path := path + [k];
      var e: (Path, Section) := (sub, s);
      var pInit := Preorder(ss[..k], path);
      var pSub := Preorder(s.children, sub);
      LinesArePreorder(ss[..k], path);
      LinesArePreorder(s.children, sub);
      assert Preorder(ss, path) == pInit + [e] + pSub;
      FlatLinesAppend(pInit + [e], pSub);
      FlatLinesAppend(pInit, [e]);
      assert FlatLines([e]) == EntryLines(e) by {
        assert [e][..0] == [];
      }
      assert |sub| == |path| + 1;
      var a, h, c, l := Lines(ss[..k], path), [Heading(|path| + 1, Dotted(sub), s)], ContentLines(s), Lines(s.children, sub);
      assert EntryLines(e) == h + c;
      assert Lines(ss, path) == a + h + c + l;
      ConcatAssoc(a, h, c, l);
    }
  }

  /**
   * The rendered document: the sections in preorder, each as a heading whose
   * depth is its nesting depth and whose number is its dotted 1-based path,
   * then its stripped content and a blank line when that is not empty, all
   * joined by newlines.
   */
  lemma RenderDocument(ss: seq<Section>)
    ensures Render(ss, 1, "") == Join(FlatLines(Preorder(ss, [])), "\n")
  {
    var root: Path := [];
    RenderIsLines(ss, root);
    LinesArePreorder(ss, root);
    assert |root| + 1 == 1 && PrefixOf(root) == "";
  }
}
