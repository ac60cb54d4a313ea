/**
 The whole boundary check against the imports of the project: a boundary covers its roots, or in its transitive mode what is
 reachable from them, and what the check reports is told by the covered modules' imports alone
 (packages/compiler/src/module-boundary-rule.ts, checkImportBoundaries).
 */
module BoundaryChecks {
  import opened Wrappers
  import opened Texts
  import opened Ranges
  import opened Sequences
  import opened Sorting
  import opened ModuleImports
  import opened SourceFacts
  import opened ModuleLoading
  import opened ImportBoundary
  import opened ImportReachability

  ghost predicate Covered(project: Project, boundary: Boundary, file: Text) {
    match boundary.mode
    case Direct => file in project.files && file in project.roles && project.roles[file] in boundary.from
    case Transitive => Reachable(project, boundary, file)
  }

  // The module's text has this import, resolved to a file whose role is denied.
  ghost predicate Forbidden(project: Project, boundary: Boundary, file: Text, edge: Edge) {
    ImportsEdge(project, file, edge) && edge.target in project.roles && project.roles[edge.target] in boundary.deny
  }

  // ----- The direct mode -----

  // The roots are in order, each once.
  lemma RootsAscend(project: Project, boundary: Boundary)
    ensures forall i, j :: 0 <= i < j < |Roots(project, boundary)| ==> Less(Roots(project, boundary)[i], Roots(project, boundary)[j])
  {
    var isRoot := (f: Text) => IsRoot(project, boundary, f);
    var chosen, roots := Filter(isRoot, Deduplicate(project.files)), Roots(project, boundary);
    FilterDistinct(isRoot, Deduplicate(project.files));
    SortPermutes(TextAtMost, chosen);
    DistinctPermute(chosen, roots);
    TextOrderTotal();
    SortSorts(TextAtMost, chosen);
    forall i, j | 0 <= i < j < |roots| ensures Less(roots[i], roots[j]) {
      assert TextAtMost(roots[i], roots[j]);
      LessTotal(roots[i], roots[j]);
    }
  }

  lemma {:induction false} DirectLoads(project: Project, boundary: Boundary, roots: seq<Text>)
    requires forall f :: f in roots ==> f in project.roles
    ensures DirectReport(project, boundary, roots).Success? ==> forall f :: f in roots ==> LoadModule(project, f).Success?
    ensures DirectReport(project, boundary, roots).Failure? ==>
      exists k :: 0 <= k < |roots| && FirstToFail(project, roots, k, DirectReport(project, boundary, roots).error)
  {
    if roots != [] {
      var rest, last := roots[..|roots| - 1], roots[|roots| - 1];
      assert roots == rest + [last];
      DirectLoads(project, boundary, rest);
      if DirectReport(project, boundary, rest).Success? {
        assert LoadModule(project, last).Failure? ==> FirstToFail(project, roots, |rest|, LoadModule(project, last).error);
      } else {
        var error := DirectReport(project, boundary, rest).error;
        var k :| 0 <= k < |rest| && FirstToFail(project, rest, k, error);
        assert FirstToFail(project, roots, k, error);
      }
    }
  }

  ghost predicate FirstToFail(project: Project, files: seq<Text>, k: int, error: InputFailure)
    requires 0 <= k < |files|
  {
    && LoadModule(project, files[k]) == Failure(error)
    && forall j :: 0 <= j < k ==> LoadModule(project, files[j]).Success?
  }

  lemma {:induction false} DirectCounts(project: Project, boundary: Boundary, roots: seq<Text>, file: Text, edge: Edge, range: Range)
    requires (forall f :: f in roots ==> f in project.roles) && Distinct(roots)
    requires DirectReport(project, boundary, roots).Success?
    ensures ViolationCount(DirectReport(project, boundary, roots).value, file, edge)
      == if file in roots && IsDenied(project, boundary, edge) then multiset(Edges(project, file))[edge] else 0
    ensures DynamicCount(DirectReport(project, boundary, roots).value, file, range)
      == if file in roots then multiset(Unsupported(project, file))[range] else 0
  {
    if roots != [] {
      var rest, last := roots[..|roots| - 1], roots[|roots| - 1];
      DirectCounts(project, boundary, rest, file, edge, range);
      var visit := Visit(last, TraversalNode(last, None));
      VisitReportsCount(project, boundary, visit, file, edge, range);
      CountConcat(DirectReport(project, boundary, rest).value, VisitReports(project, boundary, visit), file, edge, range);
      assert roots == rest + [last];
    }
  }

  // A direct report names a root, the chain of the one import, and the roles at both ends.
  lemma {:induction false} DirectChains(project: Project, boundary: Boundary, roots: seq<Text>, d: Diagnostic)
    requires forall f :: f in roots ==> f in project.roles
    requires DirectReport(project, boundary, roots).Success? && d in DirectReport(project, boundary, roots).value
    ensures d.boundary == boundary.id && d.file in roots
    ensures d.Violation? ==>
      && Forbidden(project, boundary, d.file, d.edge) && d.chain == [d.file, d.edge.target]
      && d.sourceRole == project.roles[d.file] && d.targetRole == project.roles[d.edge.target]
  {
    var rest, root := roots[..|roots| - 1], roots[|roots| - 1];
    if d in DirectReport(project, boundary, rest).value {
      DirectChains(project, boundary, rest, d);
    } else if d in DeniedReports(project, boundary, root, [root], Edges(project, root)) {
      DeniedReportsShape(project, boundary, root, [root], Edges(project, root));
      EdgeExact(project, root, d.edge);
    }
  }

  // ----- One boundary -----

  ghost predicate FailsCovered(project: Project, boundary: Boundary, error: InputFailure) {
    exists f :: Covered(project, boundary, f) && LoadFails(project, f, error)
  }

  // What a result says about one edge and one unsupported import of one file.
  ghost predicate ExactlyCovered(project: Project, boundary: Boundary, r: Result<seq<Diagnostic>, InputFailure>,
                                 file: Text, edge: Edge, range: Range)
  {
    match r
    case Failure(error) => FailsCovered(project, boundary, error)
    case Success(report) =>
      && (Covered(project, boundary, file) ==> Loads(project, file))
      && ViolationCount(report, file, edge)
         == (if Covered(project, boundary, file) && Forbidden(project, boundary, file, edge) then 1 else 0)
      && DynamicCount(report, file, range)
         == (if Covered(project, boundary, file) then multiset(UnsupportedIn(project, file))[range] else 0)
  }

  // A boundary's check fails with the failure of a covered module; otherwise every covered module loads, and it reports once
  // each forbidden import of the covered modules, their unsupported imports as often as they occur, and nothing else.
  lemma BoundaryExact(project: Project, boundary: Boundary, file: Text, edge: Edge, range: Range)
    ensures ExactlyCovered(project, boundary, BoundaryReport(project, boundary), file, edge, range)
  {
    if boundary.mode == Transitive {
      TransitiveExact(project, boundary, file, edge, range);
      if TransitiveReport(project, boundary).Failure? {
        var f :| Reachable(project, boundary, f) && LoadFails(project, f, TransitiveReport(project, boundary).error);
        assert Covered(project, boundary, f);
      }
    } else {
      DirectExact(project, boundary, file, edge, range);
    }
  }

  lemma DirectExact(project: Project, boundary: Boundary, file: Text, edge: Edge, range: Range)
    requires boundary.mode == Direct
    ensures ExactlyCovered(project, boundary, DirectReport(project, boundary, Roots(project, boundary)), file, edge, range)
  {
    var roots := Roots(project, boundary);
    DirectLoads(project, boundary, roots);
    match DirectReport(project, boundary, roots)
    case Failure(error) =>
      var k :| 0 <= k < |roots| && FirstToFail(project, roots, k, error);
      LoadFailsExactly(project, roots[k], error);
      assert Covered(project, boundary, roots[k]);
    case Success(_) =>
      RootsDistinct(project, boundary);
      DirectCounts(project, boundary, roots, file, edge, range);
      EdgesOnce(project, file, edge);
      LoadedImports(project, file);
  }

  lemma RootsDistinct(project: Project, boundary: Boundary)
    ensures Distinct(Roots(project, boundary))
  {
    RootsAscend(project, boundary);
    var roots := Roots(project, boundary);
    forall i, j | 0 <= i < j < |roots| ensures roots[i] != roots[j] {
      LessIrreflexive(roots[i]);
    }
  }

  // ----- All boundaries -----

  lemma {:induction false} AllReportsJoin(project: Project, boundaries: seq<Boundary>, d: Diagnostic)
    ensures AllReports(project, boundaries).Failure? ==>
      exists b :: b in boundaries && BoundaryReport(project, b) == Failure(AllReports(project, boundaries).error)
    ensures AllReports(project, boundaries).Success? ==>
      && (forall b :: b in boundaries ==> BoundaryReport(project, b).Success?)
      && (d in AllReports(project, boundaries).value <==> exists b :: b in boundaries && Reports(project, b, d))
  {
    if boundaries != [] {
      var rest, last := boundaries[..|boundaries| - 1], boundaries[|boundaries| - 1];
      assert boundaries == rest + [last];
      AllReportsJoin(project, rest, d);
      if AllReports(project, boundaries).Success? {
        var before, own := AllReports(project, rest).value, BoundaryReport(project, last).value;
        assert d in before + own <==> d in before || d in own;
        assert Reports(project, last, d) <==> d in own;
      }
    }
  }

  ghost predicate Reports(project: Project, boundary: Boundary, d: Diagnostic) {
    BoundaryReport(project, boundary).Success? && d in BoundaryReport(project, boundary).value
  }

  ghost predicate NamesImport(report: seq<Diagnostic>, id: Text, file: Text, edge: Edge) {
    exists d :: d in report && d.Violation? && d.boundary == id && d.file == file && d.edge == edge
  }

  lemma BoundaryIds(project: Project, boundary: Boundary, d: Diagnostic)
    requires Reports(project, boundary, d)
    ensures d.boundary == boundary.id
  {
    if boundary.mode == Transitive {
      ReportsBoundary(project, boundary);
    } else {
      DirectChains(project, boundary, Roots(project, boundary), d);
    }
  }

  lemma {:induction false} OccursCounted(report: seq<Diagnostic>, d: Diagnostic)
    requires d in report
    ensures d.Violation? ==> ViolationCount(report, d.file, d.edge) > 0
    ensures d.DynamicImport? ==> DynamicCount(report, d.file, d.range) > 0
  {
    var rest := report[..|report| - 1];
    if d in rest {
      OccursCounted(rest, d);
    }
  }

  // One boundary names an import exactly if it is a forbidden one of a covered module.
  lemma BoundaryNames(project: Project, boundary: Boundary, file: Text, edge: Edge)
    requires BoundaryReport(project, boundary).Success?
    ensures NamesImport(BoundaryReport(project, boundary).value, boundary.id, file, edge)
      <==> Covered(project, boundary, file) && Forbidden(project, boundary, file, edge)
  {
    var report := BoundaryReport(project, boundary).value;
    BoundaryExact(project, boundary, file, edge, edge.range);
    if d :| d in report && d.Violation? && d.boundary == boundary.id && d.file == file && d.edge == edge {
      OccursCounted(report, d);
    }
    if ViolationCount(report, file, edge) > 0 {
      CountedOccurs(report, file, edge, edge.range);
      var d :| d in report && d.Violation? && d.file == file && d.edge == edge;
      BoundaryIds(project, boundary, d);
    }
  }

  lemma BoundaryDynamic(project: Project, boundary: Boundary, file: Text, range: Range)
    requires BoundaryReport(project, boundary).Success?
    ensures DynamicImport(boundary.id, file, range) in BoundaryReport(project, boundary).value
      <==> Covered(project, boundary, file) && range in UnsupportedIn(project, file)
  {
    var report := BoundaryReport(project, boundary).value;
    var edge := Edge(RuntimeEdge, [], range, []);
    BoundaryExact(project, boundary, file, edge, range);
    if DynamicImport(boundary.id, file, range) in report {
      OccursCounted(report, DynamicImport(boundary.id, file, range));
    }
    if DynamicCount(report, file, range) > 0 {
      CountedOccurs(report, file, edge, range);
      var d :| d in report && d.DynamicImport? && d.file == file && d.range == range;
      BoundaryIds(project, boundary, d);
    }
  }

  // The whole check succeeds exactly if every module that some boundary covers loads, and fails as one of them does.
  lemma CheckFails(project: Project, boundaries: seq<Boundary>)
    ensures AllReports(project, boundaries).Success? <==>
      forall b, f :: b in boundaries && Covered(project, b, f) ==> Loads(project, f)
    ensures AllReports(project, boundaries).Failure? ==>
      exists b :: b in boundaries && FailsCovered(project, b, AllReports(project, boundaries).error)
  {
    var range := Range(Position(0, 0), Position(0, 0));
    var edge := Edge(RuntimeEdge, [], range, []);
    AllReportsJoin(project, boundaries, DynamicImport([], [], range));
    if AllReports(project, boundaries).Success? {
      forall b, f | b in boundaries && Covered(project, b, f) ensures Loads(project, f) {
        BoundaryExact(project, b, f, edge, range);
      }
    } else {
      var error := AllReports(project, boundaries).error;
      var b :| b in boundaries && BoundaryReport(project, b) == Failure(error);
      BoundaryExact(project, b, [], edge, range);
      var f :| Covered(project, b, f) && LoadFails(project, f, error);
      LoadFailsExactly(project, f, error);
    }
  }

  // A successful check names an import under a boundary's id exactly if a boundary of that id covers the module and forbids
  // the import, and an unsupported import exactly if such a boundary covers a module whose text has it.
  lemma CheckExact(project: Project, boundaries: seq<Boundary>, id: Text, file: Text, edge: Edge, range: Range)
    requires AllReports(project, boundaries).Success?
    ensures NamesImport(AllReports(project, boundaries).value, id, file, edge) <==>
      exists b :: b in boundaries && b.id == id && Covered(project, b, file) && Forbidden(project, b, file, edge)
    ensures DynamicImport(id, file, range) in AllReports(project, boundaries).value <==>
      exists b :: b in boundaries && b.id == id && Covered(project, b, file) && range in UnsupportedIn(project, file)
  {
    CheckNames(project, boundaries, id, file, edge);
    CheckDynamic(project, boundaries, id, file, range);
  }

  lemma CheckNames(project: Project, boundaries: seq<Boundary>, id: Text, file: Text, edge: Edge)
    requires AllReports(project, boundaries).Success?
    ensures NamesImport(AllReports(project, boundaries).value, id, file, edge) <==>
      exists b :: b in boundaries && b.id == id && Covered(project, b, file) && Forbidden(project, b, file, edge)
  {
    var report := AllReports(project, boundaries).value;
    if d :| d in report && d.Violation? && d.boundary == id && d.file == file && d.edge == edge {
      AllReportsJoin(project, boundaries, d);
      var b :| b in boundaries && Reports(project, b, d);
      BoundaryIds(project, b, d);
      BoundaryNames(project, b, file, edge);
    }
    if b :| b in boundaries && b.id == id && Covered(project, b, file) && Forbidden(project, b, file, edge) {
      AllReportsJoin(project, boundaries, DynamicImport(id, file, edge.range));
      BoundaryNames(project, b, file, edge);
      var d :| d in BoundaryReport(project, b).value && d.Violation? && d.boundary == id && d.file == file && d.edge == edge;
      assert Reports(project, b, d);
      AllReportsJoin(project, boundaries, d);
    }
  }

  lemma CheckDynamic(project: Project, boundaries: seq<Boundary>, id: Text, file: Text, range: Range)
    requires AllReports(project, boundaries).Success?
    ensures DynamicImport(id, file, range) in AllReports(project, boundaries).value <==>
      exists b :: b in boundaries && b.id == id && Covered(project, b, file) && range in UnsupportedIn(project, file)
  {
    var d := DynamicImport(id, file, range);
    AllReportsJoin(project, boundaries, d);
    if d in AllReports(project, boundaries).value {
      var b :| b in boundaries && Reports(project, b, d);
      BoundaryIds(project, b, d);
      BoundaryDynamic(project, b, file, range);
    }
    if b :| b in boundaries && b.id == id && Covered(project, b, file) && range in UnsupportedIn(project, file) {
      BoundaryDynamic(project, b, file, range);
      assert Reports(project, b, d);
    }
  }
}
