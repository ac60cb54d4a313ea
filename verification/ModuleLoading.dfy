/**
 Loading a module: its imports, resolved and in order (packages/compiler/src/module-boundary-rule.ts,
 createProjectModuleGraph and compareEdges), and what they are, told without the loading.
 */
module ModuleLoading {
  import opened Wrappers
  import opened Texts
  import opened Ranges
  import opened Sequences
  import opened Sorting
  import opened ModuleImports
  import opened SourceFacts

  datatype Edge = Edge(kind: EdgeKind, specifier: Text, range: Range, target: Text)

  // The discovered source files in order, their roles, and import resolution as a parameter.
  datatype Project = Project(
    sources: Sources,
    files: seq<Text>,
    roles: map<Text, Text>,
    resolve: (Text, Text) -> Result<Option<Text>, InputFailure>)

  datatype Loaded = Loaded(unsupported: seq<Range>, edges: seq<Edge>)

  function CompareEdges(a: Edge, b: Edge): int {
    var byTarget := CompareText(a.target, b.target);
    if byTarget != 0 then byTarget else
    var bySpecifier := CompareText(a.specifier, b.specifier);
    if bySpecifier != 0 then bySpecifier else
    if a.kind != b.kind then (if a.kind == RuntimeEdge then -1 else 1) else
    if a.range.start.line != b.range.start.line then a.range.start.line - b.range.start.line
    else a.range.start.character - b.range.start.character
  }

  predicate EdgeAtMost(a: Edge, b: Edge) {
    CompareEdges(a, b) <= 0
  }

  // The resolved imports of a file; the first import that does not resolve fails the load.
  function ResolveEdges(project: Project, file: Text, imports: seq<ImportFact>): Result<seq<Edge>, InputFailure> {
    if imports == [] then Success([])
    else
      var last := imports[|imports| - 1];
      var before :- ResolveEdges(project, file, imports[..|imports| - 1]);
      var target :- project.resolve(file, last.specifier);
      match target
      case None => Success(before)
      case Some(to) => Success(before + [Edge(last.kind, last.specifier, last.range, to)])
  }

  function LoadModule(project: Project, file: Text): Result<Loaded, InputFailure> {
    var fact :- FactOf(project.sources, file);
    var edges :- ResolveEdges(project, file, fact.imports);
    Success(Loaded(fact.unsupported, Sort(EdgeAtMost, edges)))
  }

  function Edges(project: Project, file: Text): seq<Edge> {
    match LoadModule(project, file)
    case Success(loaded) => loaded.edges
    case Failure(_) => []
  }

  function Unsupported(project: Project, file: Text): seq<Range> {
    match LoadModule(project, file)
    case Success(loaded) => loaded.unsupported
    case Failure(_) => []
  }

  // ----- What a module imports, told from its text and the resolution of its specifiers alone -----

  // Of all imports in the text, this one is the last of its kind, specifier and start.
  ghost predicate Imported(project: Project, file: Text, entry: ImportFact) {
    && project.sources.read(file).Success?
    && LastOfKey(project.sources.collect(project.sources.read(file).value, file).imports, entry)
  }

  ghost predicate Parses(project: Project, file: Text) {
    && project.sources.read(file).Success?
    && project.sources.collect(project.sources.read(file).value, file).syntaxErrors == []
  }

  ghost predicate Loads(project: Project, file: Text) {
    && Parses(project, file)
    && forall entry :: Imported(project, file, entry) ==> project.resolve(file, entry.specifier).Success?
  }

  ghost predicate ImportsEdge(project: Project, file: Text, edge: Edge) {
    && Loads(project, file)
    && Imported(project, file, ImportFact(edge.kind, edge.specifier, edge.range))
    && project.resolve(file, edge.specifier) == Success(Some(edge.target))
  }

  // Reading fails, or the text has a syntax error, or this is the first import in order that does not resolve.
  ghost predicate LoadFails(project: Project, file: Text, error: InputFailure) {
    match project.sources.read(file)
    case Failure(unread) => error == unread
    case Success(text) =>
      var errors := project.sources.collect(text, file).syntaxErrors;
      if errors != [] then error == SyntaxInvalid(file, errors[0])
      else exists entry :: FirstUnresolved(project, file, entry, error)
  }

  ghost predicate FirstUnresolved(project: Project, file: Text, entry: ImportFact, error: InputFailure) {
    && Imported(project, file, entry) && project.resolve(file, entry.specifier) == Failure(error)
    && forall other :: Imported(project, file, other) && Before(other, entry) ==> project.resolve(file, other.specifier).Success?
  }

  // By target, then specifier, then runtime before type imports, then position.
  ghost predicate EdgeBefore(a: Edge, b: Edge) {
    || Less(a.target, b.target)
    || (a.target == b.target && Less(a.specifier, b.specifier))
    || (a.target == b.target && a.specifier == b.specifier && a.kind == RuntimeEdge && b.kind == TypeEdge)
    || (a.target == b.target && a.specifier == b.specifier && a.kind == b.kind && StartsBefore(a.range, b.range))
  }

  function EdgeKey(edge: Edge): Key {
    Key(edge.kind, edge.specifier, edge.range.start)
  }

  ghost predicate EdgeKeysDistinct(edges: seq<Edge>) {
    forall i, j :: 0 <= i < j < |edges| ==> EdgeKey(edges[i]) != EdgeKey(edges[j])
  }

  function AsImport(edge: Edge): ImportFact {
    ImportFact(edge.kind, edge.specifier, edge.range)
  }

  // Resolution keeps each import that has a target, as it is, and stops at the first that fails.
  lemma {:induction false} ResolvedExact(project: Project, file: Text, imports: seq<ImportFact>, edge: Edge)
    requires ResolveEdges(project, file, imports).Success?
    ensures edge in ResolveEdges(project, file, imports).value <==>
      AsImport(edge) in imports && project.resolve(file, edge.specifier) == Success(Some(edge.target))
    ensures forall entry :: entry in imports ==> project.resolve(file, entry.specifier).Success?
  {
    if imports != [] {
      var rest, last := imports[..|imports| - 1], imports[|imports| - 1];
      assert imports == rest + [last];
      ResolvedExact(project, file, rest, edge);
    }
  }

  lemma {:induction false} ResolutionFails(project: Project, file: Text, imports: seq<ImportFact>) returns (k: nat)
    requires ResolveEdges(project, file, imports).Failure?
    ensures k < |imports| && project.resolve(file, imports[k].specifier) == Failure(ResolveEdges(project, file, imports).error)
    ensures forall j :: 0 <= j < k ==> project.resolve(file, imports[j].specifier).Success?
  {
    var rest, last := imports[..|imports| - 1], imports[|imports| - 1];
    if ResolveEdges(project, file, rest).Failure? {
      k := ResolutionFails(project, file, rest);
    } else {
      k := |imports| - 1;
      ResolvedExact(project, file, rest, Edge(last.kind, last.specifier, last.range, []));
      assert forall j :: 0 <= j < k ==> imports[j] == rest[j] && rest[j] in rest;
    }
  }

  lemma {:induction false} ResolvedDistinct(project: Project, file: Text, imports: seq<ImportFact>)
    requires KeysDistinct(imports) && ResolveEdges(project, file, imports).Success?
    ensures EdgeKeysDistinct(ResolveEdges(project, file, imports).value)
  {
    if imports != [] {
      var rest, last := imports[..|imports| - 1], imports[|imports| - 1];
      ResolvedDistinct(project, file, rest);
      forall e | e in ResolveEdges(project, file, rest).value ensures EdgeKey(e) != KeyOf(last) {
        ResolvedExact(project, file, rest, e);
        var i :| 0 <= i < |rest| && rest[i] == AsImport(e);
        assert KeyOf(imports[i]) != KeyOf(imports[|imports| - 1]);
      }
    }
  }

  lemma EdgeOrderTotal()
    ensures TotalPreorder(EdgeAtMost)
  {
    forall a, b, c
      ensures EdgeAtMost(a, b) || EdgeAtMost(b, a)
      ensures EdgeAtMost(a, b) && EdgeAtMost(b, c) ==> EdgeAtMost(a, c)
    {
      CompareTotal(a.target, b.target);
      CompareTotal(b.target, c.target);
      CompareTotal(a.target, c.target);
      CompareChain(a.target, b.target, c.target);
      CompareTotal(a.specifier, b.specifier);
      CompareTotal(b.specifier, c.specifier);
      CompareTotal(a.specifier, c.specifier);
      CompareChain(a.specifier, b.specifier, c.specifier);
    }
  }

  lemma EdgeBeforeExact(a: Edge, b: Edge)
    requires EdgeKey(a) != EdgeKey(b) && EdgeAtMost(a, b)
    ensures EdgeBefore(a, b)
  {
    CompareTotal(a.target, b.target);
    CompareTotal(a.specifier, b.specifier);
  }

  lemma ImportsAre(project: Project, file: Text, entry: ImportFact)
    requires project.sources.read(file).Success?
    ensures
      var imports := Extracted(project.sources, project.sources.read(file).value, file).imports;
      && (entry in imports <==> Imported(project, file, entry))
      && KeysDistinct(imports) && forall i, j :: 0 <= i < j < |imports| ==> Before(imports[i], imports[j])
  {
    UniqueExact(project.sources.collect(project.sources.read(file).value, file).imports, entry);
  }

  // A load fails exactly as reading does, with the first syntax error, or with the first import that does not resolve.
  lemma LoadFailsExactly(project: Project, file: Text, error: InputFailure)
    ensures LoadModule(project, file) == Failure(error) <==> LoadFails(project, file, error)
    ensures LoadModule(project, file).Success? <==> Loads(project, file)
  {
    if Parses(project, file) {
      ParsedFailsExactly(project, file, error);
    }
  }

  lemma ParsedFailsExactly(project: Project, file: Text, error: InputFailure)
    requires Parses(project, file)
    ensures LoadModule(project, file) == Failure(error) <==> LoadFails(project, file, error)
    ensures LoadModule(project, file).Success? <==> Loads(project, file)
  {
    var imports := Extracted(project.sources, project.sources.read(file).value, file).imports;
    forall entry ensures entry in imports <==> Imported(project, file, entry) {
      ImportsAre(project, file, entry);
    }
    var resolved := ResolveEdges(project, file, imports);
    if resolved.Success? {
      forall entry | entry in imports ensures project.resolve(file, entry.specifier).Success? {
        ResolvedExact(project, file, imports, Edge(entry.kind, entry.specifier, entry.range, []));
      }
    } else {
      var k := ResolutionFails(project, file, imports);
      UnresolvedUnique(project, file, imports, k, error);
    }
  }

  lemma UnresolvedUnique(project: Project, file: Text, imports: seq<ImportFact>, k: nat, error: InputFailure)
    requires k < |imports| && project.resolve(file, imports[k].specifier).Failure?
    requires forall j :: 0 <= j < k ==> project.resolve(file, imports[j].specifier).Success?
    requires forall entry :: entry in imports <==> Imported(project, file, entry)
    requires project.sources.read(file).Success?
    requires imports == Extracted(project.sources, project.sources.read(file).value, file).imports
    ensures (exists entry :: FirstUnresolved(project, file, entry, error))
      <==> project.resolve(file, imports[k].specifier) == Failure(error)
  {
    var first := imports[k];
    ImportsAre(project, file, first);
    forall other | Imported(project, file, other) && Before(other, first) ensures project.resolve(file, other.specifier).Success? {
      var j :| 0 <= j < |imports| && imports[j] == other;
      BeforeAsymmetric(other, first);
    }
    if entry :| FirstUnresolved(project, file, entry, error) {
      var j :| 0 <= j < |imports| && imports[j] == entry;
      assert k < j ==> Before(first, entry);
    }
    if project.resolve(file, first.specifier) == Failure(error) {
      assert FirstUnresolved(project, file, first, error);
    }
  }

  // The edges of a module that loads are its imports that resolve to a file, each once and in order.
  lemma EdgesExact(project: Project, file: Text)
    ensures forall edge :: edge in Edges(project, file) <==> ImportsEdge(project, file, edge)
    ensures forall i, j :: 0 <= i < j < |Edges(project, file)| ==> EdgeBefore(Edges(project, file)[i], Edges(project, file)[j])
    ensures EdgeKeysDistinct(Edges(project, file))
    ensures Unsupported(project, file) ==
      if Loads(project, file) then project.sources.collect(project.sources.read(file).value, file).unsupported else []
  {
    LoadFailsExactly(project, file, Unreadable(file));
    if Loads(project, file) {
      var imports := Extracted(project.sources, project.sources.read(file).value, file).imports;
      var resolved := ResolveEdges(project, file, imports).value;
      SortPermutes(EdgeAtMost, resolved);
      forall edge ensures edge in Edges(project, file) <==> ImportsEdge(project, file, edge) {
        ResolvedExact(project, file, imports, edge);
        ImportsAre(project, file, AsImport(edge));
      }
      ImportsAre(project, file, ImportFact(RuntimeEdge, [], Range(Position(0, 0), Position(0, 0))));
      ResolvedDistinct(project, file, imports);
      EdgesInOrder(resolved);
    }
  }

  lemma EdgeExact(project: Project, file: Text, edge: Edge)
    ensures edge in Edges(project, file) <==> ImportsEdge(project, file, edge)
  {
    EdgesExact(project, file);
  }

  lemma EdgesInOrder(resolved: seq<Edge>)
    requires EdgeKeysDistinct(resolved)
    ensures
      var edges := Sort(EdgeAtMost, resolved);
      EdgeKeysDistinct(edges) && forall i, j :: 0 <= i < j < |edges| ==> EdgeBefore(edges[i], edges[j])
  {
    var edges := Sort(EdgeAtMost, resolved);
    SortPermutes(EdgeAtMost, resolved);
    DistinctKeysPermute(EdgeKey, resolved, edges);
    EdgeOrderTotal();
    SortSorts(EdgeAtMost, resolved);
    forall i, j | 0 <= i < j < |edges| ensures EdgeBefore(edges[i], edges[j]) {
      EdgeBeforeExact(edges[i], edges[j]);
    }
  }
}
