/**
 Import boundaries (packages/compiler/src/module-boundary-rule.ts): a breadth-first traversal from the modules of
 the `from` roles, stopped at the modules of the `deny` roles.
 */
module ImportBoundary {
  import opened Wrappers
  import opened Texts
  import opened Ranges
  import opened Sequences
  import opened Sorting
  import opened ModuleImports
  import opened SourceFacts
  import opened ModuleLoading

  datatype Mode = Direct | Transitive

  datatype Boundary = Boundary(id: Text, mode: Mode, from: seq<Text>, deny: seq<Text>)

  datatype Diagnostic =
    | DynamicImport(boundary: Text, file: Text, range: Range)
    | Violation(boundary: Text, file: Text, edge: Edge, sourceRole: Text, targetRole: Text, chain: seq<Text>)

  // ----- What the check is about: the import graph -----

  predicate IsRoot(project: Project, boundary: Boundary, file: Text) {
    file in project.files && file in project.roles && project.roles[file] in boundary.from
  }

  predicate IsDenied(project: Project, boundary: Boundary, edge: Edge) {
    edge.target in project.roles && project.roles[edge.target] in boundary.deny
  }

  predicate IsOpen(project: Project, boundary: Boundary, edge: Edge) {
    edge.target in project.roles && project.roles[edge.target] !in boundary.deny
  }

  // An import from one module to another that the boundary lets the traversal follow.
  ghost predicate Follows(project: Project, boundary: Boundary, file: Text, target: Text) {
    exists e :: ImportsEdge(project, file, e) && e.target == target && IsOpen(project, boundary, e)
  }

  ghost predicate IsWalk(project: Project, boundary: Boundary, walk: seq<Text>) {
    && |walk| > 0 && IsRoot(project, boundary, walk[0])
    && forall i :: 0 <= i < |walk| - 1 ==> Follows(project, boundary, walk[i], walk[i + 1])
  }

  ghost predicate WalkTo(project: Project, boundary: Boundary, walk: seq<Text>, file: Text) {
    IsWalk(project, boundary, walk) && walk[|walk| - 1] == file
  }

  ghost predicate Reachable(project: Project, boundary: Boundary, file: Text) {
    exists walk :: WalkTo(project, boundary, walk, file)
  }

  ghost predicate Shortest(project: Project, boundary: Boundary, walk: seq<Text>, file: Text) {
    && WalkTo(project, boundary, walk, file)
    && forall other :: WalkTo(project, boundary, other, file) ==> |walk| <= |other|
  }

  // ----- The traversal as a function of the project alone -----

  datatype TraversalNode = TraversalNode(file: Text, parent: Option<TraversalNode>)

  datatype Entry = Entry(file: Text, root: Text, parent: Option<TraversalNode>)

  datatype Visit = Visit(root: Text, node: TraversalNode)

  function PathOf(node: TraversalNode): (path: seq<Text>)
    ensures |path| > 0 && path[|path| - 1] == node.file
  {
    match node.parent
    case None => [node.file]
    case Some(parent) => PathOf(parent) + [node.file]
  }

  function NodeOf(entry: Entry): TraversalNode {
    TraversalNode(entry.file, entry.parent)
  }

  function Roots(project: Project, boundary: Boundary): (roots: seq<Text>)
    ensures forall f :: f in roots <==> f in project.files && f in project.roles && project.roles[f] in boundary.from
  {
    var isRoot := (f: Text) => IsRoot(project, boundary, f);
    SortPermutes(TextAtMost, Filter(isRoot, Deduplicate(project.files)));
    Sort(TextAtMost, Filter(isRoot, Deduplicate(project.files)))
  }

  predicate InProject(project: Project, entries: seq<Entry>) {
    forall e :: e in entries ==> e.file in project.roles && e.root in project.roles
  }

  function RootEntries(project: Project, boundary: Boundary): (entries: seq<Entry>)
    ensures InProject(project, entries)
    ensures forall e :: e in entries ==> IsRoot(project, boundary, e.file) && e.root == e.file && e.parent == None
  {
    var roots := Roots(project, boundary);
    var entries := Map((f: Text) => Entry(f, f, None), roots);
    assert forall i :: 0 <= i < |entries| ==> roots[i] in roots && entries[i] == Entry(roots[i], roots[i], None);
    entries
  }

  function Pushes(project: Project, boundary: Boundary, visited: set<Text>, visit: Visit, edges: seq<Edge>): seq<Entry> {
    if edges == [] then []
    else
      var last := edges[|edges| - 1];
      Pushes(project, boundary, visited, visit, edges[..|edges| - 1])
      + if IsOpen(project, boundary, last) && last.target !in visited
        then [Entry(last.target, visit.root, Some(visit.node))] else []
  }

  lemma {:induction false} PushesMeaning(project: Project, boundary: Boundary, visited: set<Text>, visit: Visit, edges: seq<Edge>)
    ensures forall x :: x in Pushes(project, boundary, visited, visit, edges) <==>
      && x.root == visit.root && x.parent == Some(visit.node) && x.file !in visited
      && exists e :: e in edges && e.target == x.file && IsOpen(project, boundary, e)
  {
    if edges != [] {
      PushesMeaning(project, boundary, visited, visit, edges[..|edges| - 1]);
      assert edges == edges[..|edges| - 1] + [edges[|edges| - 1]];
    }
  }

  function Explore(project: Project, boundary: Boundary, pending: seq<Entry>, visited: set<Text>)
    : (r: Result<seq<Visit>, InputFailure>)
    requires InProject(project, pending)
    ensures r.Success? ==> forall v :: v in r.value ==> v.root in project.roles
    decreases project.roles.Keys - visited, |pending|
  {
    if pending == [] then Success([])
    else
      var current := pending[0];
      if current.file in visited then Explore(project, boundary, pending[1..], visited)
      else
        var loaded :- LoadModule(project, current.file);
        var visit := Visit(current.root, NodeOf(current));
        var seen := visited + {current.file};
        PushesMeaning(project, boundary, seen, visit, loaded.edges);
        var rest :- Explore(project, boundary,
                            pending[1..] + Pushes(project, boundary, seen, visit, loaded.edges), seen);
        Success([visit] + rest)
  }

  function DynamicReports(boundary: Boundary, file: Text, ranges: seq<Range>): seq<Diagnostic> {
    Map((range: Range) => DynamicImport(boundary.id, file, range), ranges)
  }

  function EdgeReport(project: Project, boundary: Boundary, root: Text, chain: seq<Text>, edge: Edge): Diagnostic
    requires root in project.roles && edge.target in project.roles
  {
    Violation(boundary.id, if |chain| > 1 then chain[|chain| - 2] else root, edge,
              project.roles[root], project.roles[edge.target], chain)
  }

  function EdgeReports(project: Project, boundary: Boundary, root: Text, path: seq<Text>, edge: Edge): seq<Diagnostic>
    requires root in project.roles
  {
    if IsDenied(project, boundary, edge)
    then [EdgeReport(project, boundary, root, path + [edge.target], edge)] else []
  }

  function DeniedReports(project: Project, boundary: Boundary, root: Text, path: seq<Text>, edges: seq<Edge>): seq<Diagnostic>
    requires root in project.roles
  {
    if edges == [] then []
    else
      var last := edges[|edges| - 1];
      DeniedReports(project, boundary, root, path, edges[..|edges| - 1])
      + EdgeReports(project, boundary, root, path, last)
  }

  function VisitReports(project: Project, boundary: Boundary, visit: Visit): seq<Diagnostic>
    requires visit.root in project.roles
  {
    DynamicReports(boundary, visit.node.file, Unsupported(project, visit.node.file))
    + DeniedReports(project, boundary, visit.root, PathOf(visit.node), Edges(project, visit.node.file))
  }

  function Reports(project: Project, boundary: Boundary, visits: seq<Visit>): seq<Diagnostic>
    requires forall v :: v in visits ==> v.root in project.roles
  {
    if visits == [] then []
    else VisitReports(project, boundary, visits[0]) + Reports(project, boundary, visits[1..])
  }

  function Continue(project: Project, boundary: Boundary, done: seq<Diagnostic>, rest: Result<seq<Visit>, InputFailure>)
    : Result<seq<Diagnostic>, InputFailure>
    requires rest.Success? ==> forall v :: v in rest.value ==> v.root in project.roles
  {
    match rest
    case Success(visits) => Success(done + Reports(project, boundary, visits))
    case Failure(error) => Failure(error)
  }

  function TransitiveReport(project: Project, boundary: Boundary): Result<seq<Diagnostic>, InputFailure> {
    Continue(project, boundary, [], Explore(project, boundary, RootEntries(project, boundary), {}))
  }

  function DirectReport(project: Project, boundary: Boundary, roots: seq<Text>): Result<seq<Diagnostic>, InputFailure>
    requires forall f :: f in roots ==> f in project.roles
  {
    if roots == [] then Success([])
    else
      var before :- DirectReport(project, boundary, roots[..|roots| - 1]);
      var root := roots[|roots| - 1];
      var _ :- LoadModule(project, root);
      Success(before + VisitReports(project, boundary, Visit(root, TraversalNode(root, None))))
  }

  function BoundaryReport(project: Project, boundary: Boundary): Result<seq<Diagnostic>, InputFailure> {
    match boundary.mode
    case Direct => DirectReport(project, boundary, Roots(project, boundary))
    case Transitive => TransitiveReport(project, boundary)
  }

  function AllReports(project: Project, boundaries: seq<Boundary>): Result<seq<Diagnostic>, InputFailure> {
    if boundaries == [] then Success([])
    else
      var before :- AllReports(project, boundaries[..|boundaries| - 1]);
      var last :- BoundaryReport(project, boundaries[|boundaries| - 1]);
      Success(before + last)
  }

  // ----- The check itself, over the module and source caches -----

  class ProjectModuleGraph {
    const project: Project
    const index: SourceFactIndex
    var loaded: map<Text, Result<Loaded, InputFailure>>

    ghost predicate Valid()
      reads this, index
    {
      && index.Valid() && index.origin == project.sources
      && forall f :: f in loaded ==> loaded[f] == LoadModule(project, f)
    }

    constructor (project: Project, index: SourceFactIndex)
      requires index.Valid() && index.origin == project.sources
      ensures Valid() && this.project == project && this.index == index && loaded == map[]
    {
      this.project := project;
      this.index := index;
      loaded := map[];
    }

    method Load(file: Text) returns (r: Result<Loaded, InputFailure>)
      requires Valid() && file in project.roles
      modifies this, index
      ensures Valid() && r == LoadModule(project, file)
    {
      if file !in loaded {
        var fact := index.Get(file);
        var entry;
        match fact {
          case Failure(error) => entry := Failure(error);
          case Success(f) =>
            match ResolveEdges(project, file, f.imports) {
              case Failure(error) => entry := Failure(error);
              case Success(edges) => entry := Success(Loaded(f.unsupported, Sort(EdgeAtMost, edges)));
            }
        }
        loaded := loaded[file := entry];
      }
      r := loaded[file];
    }

    // Reads those of the files that were not read yet, each once, unless only one read may run at a time. It does not load:
    // what is in this cache stays as it is, and every later load gives what it would have given.
    method Prefetch(files: seq<Text>)
      requires Valid()
      modifies index
      ensures Valid() && index.facts == old(index.facts)
      ensures index.readLog ==
        if index.readConcurrency == 1 then old(index.readLog) else old(index.readLog) + old(index.Missing(files))
      ensures index.sources.Keys ==
        if index.readConcurrency == 1 then old(index.sources.Keys) else old(index.sources.Keys) + Elements(files)
    {
      index.Prefetch(files);
    }
  }

  // The chain is collected from the node up to the root and reversed.
  method ImportChain(node: TraversalNode, target: Text) returns (chain: seq<Text>)
    ensures chain == PathOf(node) + [target]
  {
    var reversed := [target];
    var current := Some(node);
    while current.Some?
      invariant (if current.Some? then PathOf(current.value) else []) + Reverse(reversed) == PathOf(node) + [target]
      decreases current
    {
      ghost var before := reversed;
      reversed := reversed + [current.value.file];
      assert Reverse(reversed) == [current.value.file] + Reverse(before) by {
        assert reversed[..|reversed| - 1] == before;
      }
      current := current.value.parent;
    }
    chain := Reverse(reversed);
  }

  function Reverse(s: seq<Text>): seq<Text> {
    if s == [] then [] else [s[|s| - 1]] + Reverse(s[..|s| - 1])
  }

  lemma ReportsStep(project: Project, boundary: Boundary, root: Text, path: seq<Text>, edges: seq<Edge>, k: nat)
    requires root in project.roles && k < |edges|
    ensures DeniedReports(project, boundary, root, path, edges[..k + 1])
         == DeniedReports(project, boundary, root, path, edges[..k]) + EdgeReports(project, boundary, root, path, edges[k])
  {
    assert edges[..k + 1][..k] == edges[..k];
  }

  lemma PushesStep(project: Project, boundary: Boundary, visited: set<Text>, visit: Visit, edges: seq<Edge>, k: nat)
    requires k < |edges|
    ensures Pushes(project, boundary, visited, visit, edges[..k + 1])
         == Pushes(project, boundary, visited, visit, edges[..k])
            + if IsOpen(project, boundary, edges[k]) && edges[k].target !in visited
              then [Entry(edges[k].target, visit.root, Some(visit.node))] else []
  {
    assert edges[..k + 1][..k] == edges[..k];
  }

  method CheckDirectBoundary(graph: ProjectModuleGraph, boundary: Boundary, root: Text)
    returns (r: Result<seq<Diagnostic>, InputFailure>)
    requires graph.Valid() && root in graph.project.roles
    modifies graph, graph.index
    ensures graph.Valid()
    ensures r == match LoadModule(graph.project, root)
                 case Failure(error) => Failure(error)
                 case Success(_) => Success(VisitReports(graph.project, boundary, Visit(root, TraversalNode(root, None))))
  {
    var loaded :- graph.Load(root);
    var violations := DirectViolations(graph.project, boundary, root, loaded.edges);
    r := Success(DynamicReports(boundary, root, loaded.unsupported) + violations);
  }

  method DirectViolations(project: Project, boundary: Boundary, root: Text, edges: seq<Edge>) returns (violations: seq<Diagnostic>)
    requires root in project.roles
    ensures violations == DeniedReports(project, boundary, root, [root], edges)
  {
    violations := [];
    for k := 0 to |edges|
      invariant violations == DeniedReports(project, boundary, root, [root], edges[..k])
    {
      var edge := edges[k];
      ReportsStep(project, boundary, root, [root], edges, k);
      if edge.target in project.roles && project.roles[edge.target] in boundary.deny {
        assert [root] + [edge.target] == [root, edge.target];
        violations := violations + [EdgeReport(project, boundary, root, [root, edge.target], edge)];
      }
    }
    assert edges[..|edges|] == edges;
  }

  // What one edge of a visited module adds to the reports and to the queue.
  method VisitEdge(project: Project, boundary: Boundary, root: Text, node: TraversalNode, edge: Edge, visited: set<Text>)
    returns (reports: seq<Diagnostic>, pushed: seq<Entry>)
    requires root in project.roles
    ensures reports == EdgeReports(project, boundary, root, PathOf(node), edge)
    ensures pushed ==
      if IsOpen(project, boundary, edge) && edge.target !in visited then [Entry(edge.target, root, Some(node))] else []
  {
    reports, pushed := [], [];
    if edge.target in project.roles {
      if project.roles[edge.target] in boundary.deny {
        var chain := ImportChain(node, edge.target);
        reports := [EdgeReport(project, boundary, root, chain, edge)];
      } else if edge.target !in visited {
        pushed := [Entry(edge.target, root, Some(node))];
      }
    }
  }

  method VisitModule(project: Project, boundary: Boundary, current: Entry, loaded: Loaded, visited: set<Text>)
    returns (diagnostics: seq<Diagnostic>, pushed: seq<Entry>)
    requires current.root in project.roles && LoadModule(project, current.file) == Success(loaded)
    ensures diagnostics == VisitReports(project, boundary, Visit(current.root, NodeOf(current)))
    ensures pushed == Pushes(project, boundary, visited, Visit(current.root, NodeOf(current)), loaded.edges)
  {
    var node := TraversalNode(current.file, current.parent);
    var dynamic := DynamicReports(boundary, current.file, loaded.unsupported);
    var violations: seq<Diagnostic> := [];
    pushed := [];
    for k := 0 to |loaded.edges|
      invariant violations == DeniedReports(project, boundary, current.root, PathOf(node), loaded.edges[..k])
      invariant pushed == Pushes(project, boundary, visited, Visit(current.root, node), loaded.edges[..k])
    {
      ReportsStep(project, boundary, current.root, PathOf(node), loaded.edges, k);
      PushesStep(project, boundary, visited, Visit(current.root, node), loaded.edges, k);
      var reports, entries := VisitEdge(project, boundary, current.root, node, loaded.edges[k], visited);
      violations, pushed := violations + reports, pushed + entries;
    }
    assert loaded.edges[..|loaded.edges|] == loaded.edges;
    diagnostics := dynamic + violations;
  }

  // The files of the next eight queue entries.
  function Window(queue: seq<Entry>, index: nat): (files: seq<Text>)
    requires index <= |queue|
    ensures |files| == 8 || (|files| < 8 && index + |files| == |queue|)
    ensures forall i :: 0 <= i < |files| && index + i < |queue| ==> files[i] == queue[index + i].file
  {
    Map((e: Entry) => e.file, queue[index..Min(index + 8, |queue|)])
  }

  // One unvisited queue entry: what it reports and what it appends to the queue.
  method Dequeue(graph: ProjectModuleGraph, boundary: Boundary, current: Entry, visited: set<Text>,
                 ghost pending: seq<Entry>, ghost done: seq<Diagnostic>)
    returns (r: Result<(seq<Diagnostic>, seq<Entry>), InputFailure>)
    requires graph.Valid() && InProject(graph.project, pending)
    requires pending != [] && pending[0] == current && current.file !in visited
    modifies graph, graph.index
    ensures graph.Valid()
    ensures r.Success? ==> InProject(graph.project, pending[1..] + r.value.1)
    ensures Continue(graph.project, boundary, done, Explore(graph.project, boundary, pending, visited))
         == match r
            case Failure(error) => Failure(error)
            case Success(found) =>
              Continue(graph.project, boundary, done + found.0,
                       Explore(graph.project, boundary, pending[1..] + found.1, visited + {current.file}))
  {
    var loaded :- graph.Load(current.file);
    var reports, pushed := VisitModule(graph.project, boundary, current, loaded, visited + {current.file});
    ExploreStep(graph.project, boundary, pending, visited, done, loaded);
    r := Success((reports, pushed));
  }

  // Whatever the caches hold and however reads are batched, the result is the one the project determines.
  method CheckTransitiveBoundary(graph: ProjectModuleGraph, boundary: Boundary, roots: seq<Text>)
    returns (r: Result<seq<Diagnostic>, InputFailure>)
    requires graph.Valid() && roots == Roots(graph.project, boundary)
    modifies graph, graph.index
    ensures graph.Valid() && r == TransitiveReport(graph.project, boundary)
  {
    var project := graph.project;
    var diagnostics: seq<Diagnostic> := [];
    var queue := RootEntries(project, boundary);
    var visited: set<Text> := {};
    var index := 0;
    assert queue[0..] == queue;
    while index < |queue|
      invariant index <= |queue| && graph.Valid()
      invariant InProject(project, queue[index..]) && visited <= project.roles.Keys
      invariant TransitiveReport(project, boundary)
             == Continue(project, boundary, diagnostics, Explore(project, boundary, queue[index..], visited))
      decreases project.roles.Keys - visited, |queue| - index
    {
      if index % 8 == 0 {
        graph.Prefetch(Window(queue, index));
      }
      var current := queue[index];
      ghost var pending := queue[index..];
      assert pending[0] == current && pending[1..] == queue[index + 1..];
      index := index + 1;
      if current.file !in visited {
        var found := Dequeue(graph, boundary, current, visited, pending, diagnostics);
        if found.Failure? {
          return Failure(found.error);
        }
        DropAppend(queue, found.value.1, index);
        visited := visited + {current.file};
        diagnostics, queue := diagnostics + found.value.0, queue + found.value.1;
      }
    }
    assert queue[index..] == [] && diagnostics + [] == diagnostics;
    r := Success(diagnostics);
  }

  method CheckDirectBoundaries(graph: ProjectModuleGraph, boundary: Boundary, roots: seq<Text>)
    returns (r: Result<seq<Diagnostic>, InputFailure>)
    requires graph.Valid() && forall f :: f in roots ==> f in graph.project.roles
    modifies graph, graph.index
    ensures graph.Valid() && r == DirectReport(graph.project, boundary, roots)
  {
    var diagnostics := [];
    for index := 0 to |roots|
      invariant graph.Valid()
      invariant DirectReport(graph.project, boundary, roots[..index]) == Success(diagnostics)
    {
      if index % 8 == 0 {
        graph.Prefetch(roots[index..Min(index + 8, |roots|)]);
      }
      assert roots[..index + 1][..index] == roots[..index];
      var found := CheckDirectBoundary(graph, boundary, roots[index]);
      if found.Failure? {
        DirectFailure(graph.project, boundary, roots, index + 1);
        return found;
      }
      diagnostics := diagnostics + found.value;
    }
    assert roots[..|roots|] == roots;
    r := Success(diagnostics);
  }

  // A failed load stops the check with its own failure.
  lemma DirectFailure(project: Project, boundary: Boundary, roots: seq<Text>, k: nat)
    requires k <= |roots| && forall f :: f in roots ==> f in project.roles
    requires DirectReport(project, boundary, roots[..k]).Failure?
    ensures DirectReport(project, boundary, roots) == DirectReport(project, boundary, roots[..k])
  {
    if k == |roots| {
      assert roots[..k] == roots;
    } else {
      assert roots[..|roots| - 1][..k] == roots[..k];
      DirectFailure(project, boundary, roots[..|roots| - 1], k);
    }
  }

  method CheckImportBoundaries(graph: ProjectModuleGraph, boundaries: seq<Boundary>)
    returns (r: Result<seq<Diagnostic>, InputFailure>)
    requires graph.Valid()
    modifies graph, graph.index
    ensures graph.Valid() && r == AllReports(graph.project, boundaries)
  {
    var diagnostics := [];
    for k := 0 to |boundaries|
      invariant graph.Valid() && AllReports(graph.project, boundaries[..k]) == Success(diagnostics)
    {
      var boundary := boundaries[k];
      var roots := Roots(graph.project, boundary);
      var found;
      if boundary.mode == Direct {
        found := CheckDirectBoundaries(graph, boundary, roots);
      } else {
        found := CheckTransitiveBoundary(graph, boundary, roots);
      }
      assert boundaries[..k + 1][..k] == boundaries[..k];
      if found.Failure? {
        AllFailure(graph.project, boundaries, k + 1);
        return found;
      }
      diagnostics := diagnostics + found.value;
    }
    assert boundaries[..|boundaries|] == boundaries;
    r := Success(diagnostics);
  }

  lemma AllFailure(project: Project, boundaries: seq<Boundary>, k: nat)
    requires k <= |boundaries| && AllReports(project, boundaries[..k]).Failure?
    ensures AllReports(project, boundaries) == AllReports(project, boundaries[..k])
  {
    if k == |boundaries| {
      assert boundaries[..k] == boundaries;
    } else {
      assert boundaries[..|boundaries| - 1][..k] == boundaries[..k];
      AllFailure(project, boundaries[..|boundaries| - 1], k);
    }
  }

  lemma ExploreStep(project: Project, boundary: Boundary, pending: seq<Entry>, visited: set<Text>,
                    done: seq<Diagnostic>, loaded: Loaded)
    requires pending != [] && InProject(project, pending) && pending[0].file !in visited
    requires LoadModule(project, pending[0].file) == Success(loaded)
    ensures
      var visit := Visit(pending[0].root, NodeOf(pending[0]));
      var seen := visited + {pending[0].file};
      var next := pending[1..] + Pushes(project, boundary, seen, visit, loaded.edges);
      && InProject(project, next)
      && Continue(project, boundary, done, Explore(project, boundary, pending, visited))
      == Continue(project, boundary, done + VisitReports(project, boundary, visit), Explore(project, boundary, next, seen))
  {
    var visit := Visit(pending[0].root, NodeOf(pending[0]));
    var seen := visited + {pending[0].file};
    PushesMeaning(project, boundary, seen, visit, loaded.edges);
    var rest := Explore(project, boundary, pending[1..] + Pushes(project, boundary, seen, visit, loaded.edges), seen);
    if rest.Success? {
      assert ([visit] + rest.value)[1..] == rest.value;
      var later := Reports(project, boundary, rest.value);
      assert done + (VisitReports(project, boundary, visit) + later)
          == done + VisitReports(project, boundary, visit) + later;
    }
  }
}
