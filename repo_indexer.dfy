/**
 * The module dependency graph of the repository indexer
 * (AgenticSyncKit/agents/repo_indexer.py): module names derived from file
 * paths, first-segment import names, the graph with an edge
 * dependency -> dependent for every import that names an existing node, a
 * topological order (an explicit error when none exists), and the set of
 * modules impacted by a change set.
 *
 * Paths are root-relative strings; the parser is a parameter that returns the
 * import statements found anywhere in a file, or reports it unparsable.
 */
module RepoIndexer {
  import opened Wrappers
  import opened Text
  import Ordering

  /** (dependency, dependent): the dependent module imports the dependency. */
  type Edge = (string, string)

  /** An import node: `import a.b, c` or `from m import x` (`from . import x` has no module). */
  datatype ImportStmt = Import(names: seq<string>) | ImportFrom(source: Option<string>)

  datatype ParsedFile = Unparsable | Parsed(statements: seq<ImportStmt>)

  datatype GraphError = Cycle(stuck: set<string>)

  /** The part of a dotted import name before its first dot. */
  function FirstSegment(name: string): (r: string)
    ensures '.' !in r && StartsWith(name, r)
  {
    BeforeFirst(name, '.')
  }

  /**
   * The module name of a root-relative path: every '/' becomes '.', and a
   * trailing ".py" is removed.
   */
  function ModuleName(path: string): string {
    var rel := ReplaceChar(path, '/', '.');
    if EndsWith(rel, ".py") then rel[..|rel| - 3] else rel
  }

  /**
   * The module name keeps every character but '/', which becomes '.', and
   * drops the suffix ".py" exactly when the path with '/' turned into '.' ends
   * in it (so "x/py" loses three characters too).
   */
  lemma ModuleNameShape(path: string)
    ensures '/' !in ModuleName(path)
    ensures |ModuleName(path)| == |path| || |ModuleName(path)| == |path| - 3
    ensures forall k :: 0 <= k < |ModuleName(path)| ==> ModuleName(path)[k] == if path[k] == '/' then '.' else path[k]
    ensures EndsWith(path, ".py") ==> |ModuleName(path)| == |path| - 3
    ensures |ModuleName(path)| == if EndsWith(ReplaceChar(path, '/', '.'), ".py") then |path| - 3 else |path|
  {
    var m := ModuleName(path);
    var rel := ReplaceChar(path, '/', '.');
    if EndsWith(path, ".py") {
      assert rel[|rel| - 3..] == path[|path| - 3..];
    }
  }

  /** The names one import statement contributes. */
  function StatementNames(st: ImportStmt): set<string> {
    match st
    case Import(names) => set n | n in names :: FirstSegment(n)
    case ImportFrom(source) =>
      if source.Some? && source.value != "" then {FirstSegment(source.value)} else {}
  }

  /** The names a list of import statements contributes. */
  function NamesOf(stmts: seq<ImportStmt>): set<string> {
    if stmts == [] then {}
    else NamesOf(stmts[..|stmts| - 1]) + StatementNames(stmts[|stmts| - 1])
  }

  /** The names of a statement list are those of its statements. */
  lemma {:induction false} NamesOfMembers(stmts: seq<ImportStmt>, x: string)
    ensures x in NamesOf(stmts) <==> exists k :: 0 <= k < |stmts| && x in StatementNames(stmts[k])
  {
    if stmts != [] {
      var init := stmts[..|stmts| - 1];
      NamesOfMembers(init, x);
      if x in NamesOf(init) {
        var k :| 0 <= k < |init| && x in StatementNames(init[k]);
        assert stmts[k] == init[k];
      }
      if exists k :: 0 <= k < |stmts| && x in StatementNames(stmts[k]) {
        var k :| 0 <= k < |stmts| && x in StatementNames(stmts[k]);
        if k < |init| { assert init[k] == stmts[k]; }
      }
    }
  }

  /** The imported names of a file: first segments only; an unparsable file imports nothing. */
  function ImportedNames(f: ParsedFile): set<string> {
    match f
    case Unparsable => {}
    case Parsed(stmts) => NamesOf(stmts)
  }

  lemma ImportedNamesAreFirstSegments(f: ParsedFile, x: string)
    requires x in ImportedNames(f)
    ensures '.' !in x
  {
    NamesOfMembers(f.statements, x);
    var k :| 0 <= k < |f.statements| && x in StatementNames(f.statements[k]);
  }

  /** Nodes listed once each, in order of first occurrence (the node order of a DiGraph). */
  function AddOnce(ns: seq<string>, n: string): (r: seq<string>)
    ensures forall x :: x in r <==> x in ns || x == n
  {
    if n in ns then ns else ns + [n]
  }

  function FirstOccurrences(xs: seq<string>): (r: seq<string>)
    ensures forall x :: x in r <==> x in xs
  {
    if xs == [] then [] else AddOnce(FirstOccurrences(xs[..|xs| - 1]), xs[|xs| - 1])
  }

  function ModuleNames(files: seq<string>): (r: seq<string>)
    ensures |r| == |files| && forall k :: 0 <= k < |files| ==> r[k] == ModuleName(files[k])
  {
    seq(|files|, k requires 0 <= k < |files| => ModuleName(files[k]))
  }

  ghost predicate Distinct(xs: seq<string>) {
    forall i, j :: 0 <= i < j < |xs| ==> xs[i] != xs[j]
  }

  /** A directed graph with node attribute "file", as networkx's DiGraph is used here. */
  class DiGraph {
    var nodes: seq<string>
    var fileOf: map<string, string>
    var edges: set<Edge>

    ghost predicate Valid()
      reads this
    {
      && Distinct(nodes)
      && (forall e :: e in edges ==> e.0 in nodes && e.1 in nodes)
      && (forall n :: n in fileOf ==> n in nodes)
    }

    constructor ()
      ensures Valid() && nodes == [] && fileOf == map[] && edges == {}
    {
      nodes, fileOf, edges := [], map[], {};
    }

    /** `G.add_node(n, file=f)`: adds n if new and (re)sets its file attribute. */
    method AddNode(n: string, file: string)
      requires Valid()
      modifies this
      ensures Valid()
      ensures nodes == AddOnce(old(nodes), n)
      ensures fileOf == old(fileOf)[n := file] && edges == old(edges)
    {
      nodes := AddOnce(nodes, n);
      fileOf := fileOf[n := file];
    }

    /** `G.add_edge(u, v)`: adds the edge, and either endpoint that is not yet a node. */
    method AddEdge(u: string, v: string)
      requires Valid()
      modifies this
      ensures Valid()
      ensures nodes == AddOnce(AddOnce(old(nodes), u), v)
      ensures edges == old(edges) + {(u, v)} && fileOf == old(fileOf)
    {
      nodes := AddOnce(AddOnce(nodes, u), v);
      edges := edges + {(u, v)};
    }
  }

  /** Some file among files has module v and imports u. */
  ghost predicate EdgeFromFiles(files: seq<string>, parse: string -> ParsedFile, u: string, v: string) {
    exists k :: 0 <= k < |files| && ModuleName(files[k]) == v && u in ImportedNames(parse(files[k]))
  }

  /** The source of every import edge is a first segment: edges never start at a dotted name. */
  lemma EdgeSourceUndotted(files: seq<string>, parse: string -> ParsedFile, u: string, v: string)
    requires EdgeFromFiles(files, parse, u, v)
    ensures '.' !in u
  {
    var k :| 0 <= k < |files| && ModuleName(files[k]) == v && u in ImportedNames(parse(files[k]));
    ImportedNamesAreFirstSegments(parse(files[k]), u);
  }

  /** Every node carries a file, and no two nodes carry the same one. */
  ghost predicate FilesTagged(nodes: seq<string>, fileOf: map<string, string>) {
    && (forall n :: n in nodes ==> n in fileOf)
    && (forall a, b :: a in fileOf && b in fileOf && fileOf[a] == fileOf[b] ==> a == b)
  }

  /** The "file" attribute of each module node: the last file with that module name. */
  function NodeFiles(files: seq<string>): map<string, string> {
    if files == [] then map[]
    else NodeFiles(files[..|files| - 1])[ModuleName(files[|files| - 1]) := files[|files| - 1]]
  }

  lemma FirstOccurrencesStep(xs: seq<string>, i: nat)
    requires i < |xs|
    ensures FirstOccurrences(xs[..i + 1]) == AddOnce(FirstOccurrences(xs[..i]), xs[i])
  {
    var ys := xs[..i + 1];
    assert ys[..|ys| - 1] == xs[..i];
    assert ys[|ys| - 1] == xs[i];
  }

  lemma NodeFilesStep(files: seq<string>, i: nat)
    requires i < |files|
    ensures NodeFiles(files[..i + 1]) == NodeFiles(files[..i])[ModuleName(files[i]) := files[i]]
  {
    var ys := files[..i + 1];
    assert ys[..|ys| - 1] == files[..i];
    assert ys[|ys| - 1] == files[i];
  }

  /** Every module of the files has a file, and that file is one of them with that module name. */
  lemma {:induction false} NodeFilesSound(files: seq<string>)
    ensures forall m :: m in NodeFiles(files) <==> m in ModuleNames(files)
    ensures forall m :: m in NodeFiles(files) ==> NodeFiles(files)[m] in files && ModuleName(NodeFiles(files)[m]) == m
  {
    if files != [] {
      var init := files[..|files| - 1];
      NodeFilesSound(init);
      assert ModuleNames(files) == ModuleNames(init) + [ModuleName(files[|files| - 1])];
      forall m | m in NodeFiles(init) ensures NodeFiles(init)[m] in files {
        assert NodeFiles(init)[m] in init;
      }
    }
  }

  /** The node files tag the nodes: every node has one, and distinct nodes have distinct files. */
  lemma NodeFilesTag(files: seq<string>)
    ensures FilesTagged(FirstOccurrences(ModuleNames(files)), NodeFiles(files))
  {
    NodeFilesSound(files);
  }

  /** Path p follows the edges. */
  ghost predicate IsPath(edges: set<Edge>, p: seq<string>) {
    |p| >= 1 && forall k :: 0 <= k < |p| - 1 ==> (p[k], p[k + 1]) in edges
  }

  /** `nx.has_path(G, u, v)`: a path of zero or more edges leads from u to v. */
  ghost predicate Reach(edges: set<Edge>, u: string, v: string) {
    exists p :: IsPath(edges, p) && p[0] == u && p[|p| - 1] == v
  }

  lemma ReachRefl(edges: set<Edge>, u: string)
    ensures Reach(edges, u, u)
  {
    assert IsPath(edges, [u]);
  }

  lemma ReachStep(edges: set<Edge>, u: string, v: string, w: string)
    requires Reach(edges, u, v) && (v, w) in edges
    ensures Reach(edges, u, w)
  {
    var p :| IsPath(edges, p) && p[0] == u && p[|p| - 1] == v;
    assert IsPath(edges, p + [w]);
    assert (p + [w])[0] == u;
  }

  /** A set closed under the edges contains everything reachable from its members. */
  lemma {:induction false} ClosedContainsPath(edges: set<Edge>, vs: set<string>, p: seq<string>)
    requires IsPath(edges, p) && p[0] in vs
    requires forall e :: e in edges && e.0 in vs ==> e.1 in vs
    ensures p[|p| - 1] in vs
    decreases |p|
  {
    if |p| > 1 {
      var q := p[..|p| - 1];
      assert IsPath(edges, q);
      ClosedContainsPath(edges, vs, q);
      assert (p[|p| - 2], p[|p| - 1]) in edges;
    }
  }

  /**
   * A topological order of the graph: every node exactly once, and for every
   * edge (u, v) u comes before v.
   */
  ghost predicate IsTopoOrder(order: seq<string>, nodes: seq<string>, edges: set<Edge>) {
    && Distinct(order)
    && (forall x :: x in order <==> x in nodes)
    && (forall i, j :: 0 <= i < |order| && 0 <= j < |order| && (order[i], order[j]) in edges ==> i < j)
  }

  /** The part of an order built so far: no edge goes backwards, and no edge enters it from outside. */
  ghost predicate TopoPrefix(order: seq<string>, edges: set<Edge>) {
    && Distinct(order)
    && (forall i, j :: 0 <= i < |order| && 0 <= j < |order| && (order[i], order[j]) in edges ==> i < j)
    && (forall e :: e in edges && e.1 in order ==> e.0 in order)
  }

  /** v has no predecessor in rest. */
  predicate Ready(edges: set<Edge>, rest: set<string>, v: string) {
    !exists u :: u in rest && (u, v) in edges
  }

  lemma ExtendTopoPrefix(order: seq<string>, gen: seq<string>, rest: set<string>, edges: set<Edge>)
    requires TopoPrefix(order, edges) && Distinct(gen)
    requires forall x :: x in order ==> x !in rest
    requires forall x :: x in gen ==> x in rest && Ready(edges, rest, x)
    requires forall e :: e in edges && e.0 !in rest ==> e.0 in order
    ensures TopoPrefix(order + gen, edges)
  {
    var o := order + gen;
    forall i, j | 0 <= i < j < |o| ensures o[i] != o[j] {
      if j >= |order| && i < |order| {
        assert o[i] in order && o[j] in gen;
      }
    }
    forall e | e in edges && e.1 in o ensures e.0 in o {
      if e.1 !in order {
        assert e.1 in gen;
        assert e.0 !in rest;
      }
    }
    forall i, j | 0 <= i < |o| && 0 <= j < |o| && (o[i], o[j]) in edges ensures i < j {
      if j < |order| {
        assert o[j] == order[j];
        assert o[i] in order;
        var k :| 0 <= k < |order| && order[k] == o[i];
        assert o[k] == o[i];
      } else {
        assert o[j] in gen;
        assert o[i] !in rest;
        assert o[i] in order;
        var k :| 0 <= k < |order| && order[k] == o[i];
        assert o[k] == o[i];
      }
    }
  }

  /** When every remaining node has a remaining predecessor, no topological order exists. */
  lemma FirstIndexIn(order: seq<string>, rest: set<string>, i0: nat) returns (k: nat)
    requires i0 < |order| && order[i0] in rest
    ensures k <= i0 && order[k] in rest
    ensures forall j :: 0 <= j < k ==> order[j] !in rest
  {
    k := 0;
    while order[k] !in rest
      invariant k <= i0
      invariant forall j :: 0 <= j < k ==> order[j] !in rest
      decreases i0 - k
    {
      k := k + 1;
    }
  }

  /** In a topological order, the first member of any node set has no predecessor in that set. */
  lemma FirstOfSetIsReady(order: seq<string>, nodes: seq<string>, edges: set<Edge>, rest: set<string>, k: nat)
    requires IsTopoOrder(order, nodes, edges) && forall x :: x in rest ==> x in nodes
    requires k < |order| && forall j :: 0 <= j < k ==> order[j] !in rest
    ensures Ready(edges, rest, order[k])
  {
  }

  lemma StuckHasNoOrder(order: seq<string>, nodes: seq<string>, edges: set<Edge>, rest: set<string>)
    requires rest != {} && forall x :: x in rest ==> x in nodes
    requires forall v {:trigger Ready(edges, rest, v)} :: v in rest ==> !Ready(edges, rest, v)
    ensures !IsTopoOrder(order, nodes, edges)
  {
    if IsTopoOrder(order, nodes, edges) {
      var x :| x in rest;
      assert x in order;
      var i0 :| 0 <= i0 < |order| && order[i0] == x;
      var k := FirstIndexIn(order, rest, i0);
      FirstOfSetIsReady(order, nodes, edges, rest, k);
      assert false;
    }
  }

  /** An edge path goes forward in any topological order. */
  lemma {:induction false} PathGoesForward(order: seq<string>, nodes: seq<string>, edges: set<Edge>, p: seq<string>, i: nat, j: nat)
    requires IsTopoOrder(order, nodes, edges) && (forall e :: e in edges ==> e.0 in nodes && e.1 in nodes)
    requires IsPath(edges, p) && |p| >= 2
    requires i < |order| && order[i] == p[0] && j < |order| && order[j] == p[|p| - 1]
    ensures i < j
    decreases |p|
  {
    var last := p[|p| - 2];
    assert (last, p[|p| - 1]) in edges;
    assert last in order;
    var k :| 0 <= k < |order| && order[k] == last;
    assert k < j;
    if |p| > 2 {
      var q := p[..|p| - 1];
      assert IsPath(edges, q);
      PathGoesForward(order, nodes, edges, q, i, k);
    }
  }

  /** A graph with a cycle (a path of one or more edges back to its start) has no topological order. */
  lemma CyclicHasNoOrder(order: seq<string>, nodes: seq<string>, edges: set<Edge>, p: seq<string>)
    requires forall e :: e in edges ==> e.0 in nodes && e.1 in nodes
    requires IsPath(edges, p) && |p| >= 2 && p[0] == p[|p| - 1]
    ensures !IsTopoOrder(order, nodes, edges)
  {
    if IsTopoOrder(order, nodes, edges) {
      assert (p[0], p[1]) in edges;
      var i :| 0 <= i < |order| && order[i] == p[0];
      PathGoesForward(order, nodes, edges, p, i, i);
    }
  }

  /** One round of the edge loop of `build_graph` keeps the edges those of the files scanned so far. */
  lemma EdgesStep(files: seq<string>, parse: string -> ParsedFile, i: nat, nodes: seq<string>, e0: set<Edge>, e1: set<Edge>)
    requires i < |files|
    requires forall u, v :: (u, v) in e0 <==> u in nodes && EdgeFromFiles(files[..i], parse, u, v)
    requires forall u, v :: (u, v) in e1 <==>
      (u, v) in e0 || (v == ModuleName(files[i]) && u in ImportedNames(parse(files[i])) && u in nodes)
    ensures forall u, v :: (u, v) in e1 <==> u in nodes && EdgeFromFiles(files[..i + 1], parse, u, v)
  {
    EdgeFromFilesStep(files, parse, i);
  }

  /** The edges the first i + 1 files give: those of the first i, and those of file i. */
  lemma EdgeFromFilesStep(files: seq<string>, parse: string -> ParsedFile, i: nat)
    requires i < |files|
    ensures forall u, v :: EdgeFromFiles(files[..i + 1], parse, u, v) <==>
      EdgeFromFiles(files[..i], parse, u, v) || (v == ModuleName(files[i]) && u in ImportedNames(parse(files[i])))
  {
    forall u, v ensures EdgeFromFiles(files[..i + 1], parse, u, v) <==>
      EdgeFromFiles(files[..i], parse, u, v) || (v == ModuleName(files[i]) && u in ImportedNames(parse(files[i])))
    {
      if EdgeFromFiles(files[..i + 1], parse, u, v) {
        var k :| 0 <= k < i + 1 && ModuleName(files[..i + 1][k]) == v && u in ImportedNames(parse(files[..i + 1][k]));
        if k < i { assert files[..i][k] == files[k]; }
      }
      if EdgeFromFiles(files[..i], parse, u, v) {
        var k :| 0 <= k < i && ModuleName(files[..i][k]) == v && u in ImportedNames(parse(files[..i][k]));
        assert files[..i + 1][k] == files[k];
      }
      if v == ModuleName(files[i]) && u in ImportedNames(parse(files[i])) {
        assert files[..i + 1][i] == files[i];
      }
    }
  }

  /** The code globs an indexer selects files by (`fnmatch` is a parameter of the model). */
  class Indexer {
    const codeGlobs: seq<string>

    constructor (codeGlobs: seq<string>)
      ensures this.codeGlobs == codeGlobs
    {
      this.codeGlobs := codeGlobs;
    }

    /**
     * `_iter_py_files`: the ".py" files under the root that match some glob,
     * sorted and without duplicates.
     */
    method IterPyFiles(pyFiles: seq<string>, globMatch: (string, string) -> bool) returns (files: seq<string>)
      ensures Ordering.StrictlySorted(Ordering.PathParts, files)
      ensures forall p :: p in files <==> p in pyFiles && exists g :: g in codeGlobs && globMatch(g, p)
    {
      var found: seq<string> := [];
      for k := 0 to |codeGlobs|
        invariant forall p :: p in found <==> p in pyFiles && exists g :: g in codeGlobs[..k] && globMatch(g, p)
      {
        for i := 0 to |pyFiles|
          invariant forall p :: p in found <==>
            p in pyFiles && ((exists g :: g in codeGlobs[..k] && globMatch(g, p)) || (p in pyFiles[..i] && globMatch(codeGlobs[k], p)))
        {
          if globMatch(codeGlobs[k], pyFiles[i]) {
            found := found + [pyFiles[i]];
          }
        }
        assert codeGlobs[..k + 1] == codeGlobs[..k] + [codeGlobs[k]];
      }
      assert codeGlobs[..|codeGlobs|] == codeGlobs;
      files := Ordering.SortUnique(Ordering.PathParts, found);
    }

    /** `_imports_in_file`: the first segments of the names the file imports. */
    method ImportsInFile(f: ParsedFile) returns (imports: set<string>)
      ensures imports == ImportedNames(f)
      ensures forall x :: x in imports ==> '.' !in x
    {
      if f.Unparsable? {
        return {};
      }
      var stmts := f.statements;
      imports := {};
      for i := 0 to |stmts|
        invariant imports == NamesOf(stmts[..i])
      {
        imports := AddStatementNames(imports, stmts[i]);
        assert stmts[..i + 1][..i] == stmts[..i];
      }
      assert stmts[..|stmts|] == stmts;
      forall x | x in imports ensures '.' !in x {
        ImportedNamesAreFirstSegments(f, x);
      }
    }

    /** One step of `ast.walk` in `_imports_in_file`: add the names one import node contributes. */
    method AddStatementNames(imports: set<string>, st: ImportStmt) returns (r: set<string>)
      ensures r == imports + StatementNames(st)
    {
      r := imports;
      match st
      case Import(names) =>
        for k := 0 to |names|
          invariant r == imports + set n | n in names[..k] :: FirstSegment(n)
        {
          r := r + {FirstSegment(names[k])};
          assert names[..k + 1] == names[..k] + [names[k]];
        }
        assert names[..|names|] == names;
      case ImportFrom(source) =>
        if source.Some? && source.value != "" {
          r := r + {FirstSegment(source.value)};
        }
    }

    /**
     * `build_graph`: one node per module, tagged with its (last) file; then an
     * edge (u, m) for every name u that m's file imports and that is a node.
     */
    method BuildGraph(files: seq<string>, parse: string -> ParsedFile) returns (g: DiGraph)
      ensures fresh(g) && g.Valid()
      ensures g.nodes == FirstOccurrences(ModuleNames(files)) && g.fileOf == NodeFiles(files)
      ensures forall u, v :: (u, v) in g.edges <==> u in g.nodes && EdgeFromFiles(files, parse, u, v)
    {
      g := new DiGraph();
      AddModuleNodes(g, files);
      ghost var nodes0, fileOf0 := g.nodes, g.fileOf;
      for i := 0 to |files|
        invariant g.Valid() && g.nodes == nodes0 && g.fileOf == fileOf0
        invariant forall u, v :: (u, v) in g.edges <==> u in g.nodes && EdgeFromFiles(files[..i], parse, u, v)
      {
        var m := ModuleName(files[i]);
        var imps := ImportsInFile(parse(files[i]));
        assert m in g.nodes by {
          assert ModuleNames(files)[i] == m;
        }
        ghost var edges0 := g.edges;
        AddImportEdges(g, imps, m);
        EdgesStep(files, parse, i, g.nodes, edges0, g.edges);
      }
      assert files[..|files|] == files;
    }

    /** The first loop of `build_graph`: `G.add_node(m, file=f)` for every file in order. */
    method AddModuleNodes(g: DiGraph, files: seq<string>)
      requires g.Valid() && g.nodes == [] && g.fileOf == map[] && g.edges == {}
      modifies g
      ensures g.Valid() && g.edges == {}
      ensures g.nodes == FirstOccurrences(ModuleNames(files)) && g.fileOf == NodeFiles(files)
    {
      var names := ModuleNames(files);
      for i := 0 to |files|
        invariant g.Valid() && g.edges == {}
        invariant g.nodes == FirstOccurrences(names[..i]) && g.fileOf == NodeFiles(files[..i])
      {
        var n, f := names[i], files[i];
        assert n == ModuleName(f);
        FirstOccurrencesStep(names, i);
        NodeFilesStep(files, i);
        g.AddNode(n, f);
      }
      assert names[..|files|] == names;
      assert files[..|files|] == files;
    }

    /** The inner loop of `build_graph`: an edge (u, m) for every imported name u that is a node. */
    method AddImportEdges(g: DiGraph, imps: set<string>, m: string)
      requires g.Valid() && m in g.nodes
      modifies g
      ensures g.Valid() && g.nodes == old(g.nodes) && g.fileOf == old(g.fileOf)
      ensures forall u, v :: (u, v) in g.edges <==> (u, v) in old(g.edges) || (v == m && u in imps && u in g.nodes)
    {
      var rest := imps;
      while rest != {}
        invariant rest <= imps
        invariant g.Valid() && g.nodes == old(g.nodes) && g.fileOf == old(g.fileOf)
        invariant forall u, v :: (u, v) in g.edges <==> (u, v) in old(g.edges) || (v == m && u in imps - rest && u in g.nodes)
        decreases rest
      {
        var other :| other in rest;
        if other in g.nodes {
          g.AddEdge(other, m);
        }
        rest := rest - {other};
      }
    }

    /**
     * `topo_order`: Kahn's algorithm by generations (each generation: the
     * remaining nodes with no remaining predecessor, in node order).  The
     * result is an error exactly when the graph has no topological order.
     */
    method TopoOrder(g: DiGraph) returns (r: Result<seq<string>, GraphError>)
      requires g.Valid()
      ensures r.Ok? ==> IsTopoOrder(r.value, g.nodes, g.edges)
      ensures r.Err? ==> forall order :: !IsTopoOrder(order, g.nodes, g.edges)
    {
      var order: seq<string> := [];
      var rest: set<string> := set n | n in g.nodes;
      while rest != {}
        invariant forall x :: x in rest ==> x in g.nodes
        invariant forall x :: x in order <==> x in g.nodes && x !in rest
        invariant TopoPrefix(order, g.edges)
        decreases |rest|
      {
        var gen: seq<string> := [];
        for i := 0 to |g.nodes|
          invariant Distinct(gen)
          invariant forall x :: x in gen <==> x in g.nodes[..i] && x in rest && Ready(g.edges, rest, x)
        {
          var v := g.nodes[i];
          if v in rest && Ready(g.edges, rest, v) {
            assert v !in g.nodes[..i];
            gen := gen + [v];
          }
          assert g.nodes[..i + 1] == g.nodes[..i] + [v];
        }
        assert g.nodes[..|g.nodes|] == g.nodes;
        if gen == [] {
          forall order ensures !IsTopoOrder(order, g.nodes, g.edges) {
            StuckHasNoOrder(order, g.nodes, g.edges, rest);
          }
          return Err(Cycle(rest));
        }
        ExtendTopoPrefix(order, gen, rest, g.edges);
        var done := set x | x in gen;
        assert gen[0] in done && done <= rest;
        order := order + gen;
        rest := rest - done;
      }
      return Ok(order);
    }

    /** `nx.has_path(G, src, dst)`, by breadth-first search. */
    method HasPath(g: DiGraph, src: string, dst: string) returns (b: bool)
      requires g.Valid() && src in g.nodes && dst in g.nodes
      ensures b <==> Reach(g.edges, src, dst)
    {
      var all := set n | n in g.nodes;
      var visited: set<string> := {src};
      var frontier: set<string> := {src};
      ReachRefl(g.edges, src);
      while frontier != {}
        invariant frontier <= visited <= all && src in visited
        invariant forall x :: x in visited ==> Reach(g.edges, src, x)
        invariant forall e :: e in g.edges && e.0 in visited && e.0 !in frontier ==> e.1 in visited
        decreases |all - visited|, |frontier|
      {
        var x :| x in frontier;
        var succ := set e | e in g.edges && e.0 == x :: e.1;
        forall w | w in succ ensures Reach(g.edges, src, w) {
          ReachStep(g.edges, src, x, w);
        }
        var newly := succ - visited;
        if newly != {} {
          assert all - (visited + newly) < all - visited;
        }
        visited := visited + newly;
        frontier := frontier - {x} + newly;
      }
      b := dst in visited;
      if Reach(g.edges, src, dst) {
        var p :| IsPath(g.edges, p) && p[0] == src && p[|p| - 1] == dst;
        ClosedContainsPath(g.edges, visited, p);
      }
    }

    /**
     * `impacted_modules`: the modules of the changed files (ignoring files that
     * are no node's file) together with every node reachable from one of them.
     */
    method ImpactedModules(g: DiGraph, changed: set<string>) returns (impacted: set<string>)
      requires g.Valid() && FilesTagged(g.nodes, g.fileOf)
      ensures changed == {} ==> impacted == {}
      ensures changed != {} ==> impacted == Seeds(g.nodes, g.fileOf, changed) + ReachableFrom(g.nodes, g.edges, Seeds(g.nodes, g.fileOf, changed))
    {
      if changed == {} {
        return {};
      }
      var fileToMod := FileToModule(g);
      var seeds := ChangedModules(g, fileToMod, changed);
      impacted := seeds;
      for i := 0 to |g.nodes|
        invariant impacted == seeds + ReachableFrom(g.nodes[..i], g.edges, seeds)
      {
        var m := g.nodes[i];
        var b := ReachedFromAny(g, seeds, m);
        ReachableFromStep(g.nodes, i, g.edges, seeds, b);
        if b {
          impacted := impacted + {m};
        }
      }
      assert g.nodes[..|g.nodes|] == g.nodes;
    }

    /** The first loop of `impacted_modules`: the (non-empty) module of each changed file that is a node's file. */
    method ChangedModules(g: DiGraph, fileToMod: map<string, string>, changed: set<string>) returns (seeds: set<string>)
      requires g.Valid() && FilesTagged(g.nodes, g.fileOf)
      requires forall f :: f in fileToMod <==> exists n :: n in g.nodes && g.fileOf[n] == f
      requires forall f :: f in fileToMod ==> fileToMod[f] in g.nodes && g.fileOf[fileToMod[f]] == f
      ensures seeds == Seeds(g.nodes, g.fileOf, changed)
    {
      seeds := {};
      var rest := changed;
      while rest != {}
        invariant rest <= changed
        invariant forall m :: m in seeds <==> m in g.nodes && m != "" && g.fileOf[m] in changed - rest
        decreases rest
      {
        var cf :| cf in rest;
        if cf in fileToMod && fileToMod[cf] != "" {
          seeds := seeds + {fileToMod[cf]};
        }
        rest := rest - {cf};
      }
    }

    /** `{G.nodes[n]["file"]: n for n in G.nodes}`. */
    method FileToModule(g: DiGraph) returns (fileToMod: map<string, string>)
      requires g.Valid() && FilesTagged(g.nodes, g.fileOf)
      ensures forall f :: f in fileToMod <==> exists n :: n in g.nodes && g.fileOf[n] == f
      ensures forall f :: f in fileToMod ==> fileToMod[f] in g.nodes && g.fileOf[fileToMod[f]] == f
    {
      fileToMod := map[];
      for i := 0 to |g.nodes|
        invariant forall f :: f in fileToMod <==> exists n :: n in g.nodes[..i] && g.fileOf[n] == f
        invariant forall f :: f in fileToMod ==> fileToMod[f] in g.nodes && g.fileOf[fileToMod[f]] == f
      {
        fileToMod := fileToMod[g.fileOf[g.nodes[i]] := g.nodes[i]];
        assert g.nodes[..i + 1] == g.nodes[..i] + [g.nodes[i]];
      }
      assert g.nodes[..|g.nodes|] == g.nodes;
    }

    /** The inner loop of `impacted_modules`: some seed has a path to m. */
    method ReachedFromAny(g: DiGraph, seeds: set<string>, m: string) returns (b: bool)
      requires g.Valid() && m in g.nodes && seeds <= set n | n in g.nodes
      ensures b <==> exists s :: s in seeds && Reach(g.edges, s, m)
    {
      b := false;
      var srcs := seeds;
      while srcs != {}
        invariant srcs <= seeds
        invariant b <==> exists s :: s in seeds - srcs && Reach(g.edges, s, m)
        decreases srcs
      {
        var s :| s in srcs;
        var found := HasPath(g, s, m);
        b := b || found;
        srcs := srcs - {s};
      }
    }

    /**
     * `write_artifacts` (the graph record): the node list with files, the
     * edges, the topological order and the sorted impacted modules.
     */
    method WriteArtifacts(g: DiGraph, changed: set<string>) returns (r: Result<GraphRecord, GraphError>)
      requires g.Valid() && FilesTagged(g.nodes, g.fileOf)
      ensures r.Err? ==> forall order :: !IsTopoOrder(order, g.nodes, g.edges)
      ensures r.Ok? ==> && |r.value.nodes| == |g.nodes|
                        && (forall k :: 0 <= k < |g.nodes| ==> r.value.nodes[k] == (g.nodes[k], g.fileOf[g.nodes[k]]))
                        && r.value.edges == g.edges
                        && IsTopoOrder(r.value.topologicalOrder, g.nodes, g.edges)
                        && Ordering.SortedListOf(Ordering.CodePoint, r.value.impacted,
                             if changed == {} then {}
                             else Seeds(g.nodes, g.fileOf, changed) + ReachableFrom(g.nodes, g.edges, Seeds(g.nodes, g.fileOf, changed)))
    {
      var topo := TopoOrder(g);
      if topo.Err? {
        return Err(topo.error);
      }
      var imp := ImpactedModules(g, changed);
      var sortedImp := Ordering.SortSet(Ordering.CodePoint, imp);
      var nodeList: seq<(string, string)> := [];
      for k := 0 to |g.nodes|
        invariant |nodeList| == k
        invariant forall j :: 0 <= j < k ==> nodeList[j] == (g.nodes[j], g.fileOf[g.nodes[j]])
      {
        nodeList := nodeList + [(g.nodes[k], g.fileOf[g.nodes[k]])];
      }
      return Ok(GraphRecord(nodeList, g.edges, topo.value, sortedImp));
    }
  }

  /** The modules whose file is among the changed paths (the empty module name is ignored). */
  ghost function Seeds(nodes: seq<string>, fileOf: map<string, string>, changed: set<string>): set<string>
    requires forall n :: n in nodes ==> n in fileOf
  {
    set m | m in nodes && m != "" && fileOf[m] in changed
  }

  /** The nodes among ns reachable from some seed. */
  ghost function ReachableFrom(ns: seq<string>, edges: set<Edge>, seeds: set<string>): set<string> {
    set m | m in ns && exists s :: s in seeds && Reach(edges, s, m)
  }

  lemma ReachableFromStep(ns: seq<string>, i: nat, edges: set<Edge>, seeds: set<string>, b: bool)
    requires i < |ns|
    requires b <==> exists s :: s in seeds && Reach(edges, s, ns[i])
    ensures ReachableFrom(ns[..i + 1], edges, seeds) == ReachableFrom(ns[..i], edges, seeds) + (if b then {ns[i]} else {})
  {
    assert ns[..i + 1] == ns[..i] + [ns[i]];
  }

  /** The graph record written to repo_graph.json. */
  datatype GraphRecord = GraphRecord(
    nodes: seq<(string, string)>,
    edges: set<Edge>,
    topologicalOrder: seq<string>,
    impacted: seq<string>)

  /** Nothing is impacted without changes. */
  lemma EmptyChangeImpactsNothing(nodes: seq<string>, fileOf: map<string, string>, edges: set<Edge>)
    requires forall n :: n in nodes ==> n in fileOf
    ensures Seeds(nodes, fileOf, {}) == {}
    ensures ReachableFrom(nodes, edges, {}) == {}
  {
  }

  /** seeds <= impacted <= nodes, and every node reachable from a seed is impacted. */
  lemma ImpactedBetweenSeedsAndNodes(nodes: seq<string>, fileOf: map<string, string>, edges: set<Edge>, changed: set<string>, m: string)
    requires forall n :: n in nodes ==> n in fileOf
    requires forall e :: e in edges ==> e.0 in nodes && e.1 in nodes
    ensures m in Seeds(nodes, fileOf, changed) ==> m in nodes
    ensures m in ReachableFrom(nodes, edges, Seeds(nodes, fileOf, changed)) <==>
      m in nodes && exists s :: s in Seeds(nodes, fileOf, changed) && Reach(edges, s, m)
    ensures m in Seeds(nodes, fileOf, changed) ==> m in ReachableFrom(nodes, edges, Seeds(nodes, fileOf, changed))
  {
    if m in Seeds(nodes, fileOf, changed) {
      ReachRefl(edges, m);
    }
  }
}
