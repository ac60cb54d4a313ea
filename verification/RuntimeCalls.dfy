/**
 Collecting `import()`, `require()` and `require.resolve()` calls with explicit stacks, against lexical scoping
 (packages/compiler/src/typescript-source.ts, collectRuntimeCalls and visitBindingScopes).
 */
module RuntimeCalls {
  import opened Wrappers
  import opened Texts
  import opened PlainObjects
  import opened Sequences
  import opened SyntaxScopes

  // The boolean is whether the scope declares `require`.
  type Bindings = map<Path, bool>

  datatype RuntimeCall = RuntimeCall(path: Path, argument: Option<Text>)

  datatype Visit = Visit(path: Path, node: Node, shadowed: bool)

  predicate IsRuntimeImportCall(callee: Callee, shadowed: bool) {
    || callee.ImportKeyword?
    || (!shadowed && callee == Name(REQUIRE))
    || (!shadowed && callee == Member(Some(REQUIRE), RESOLVE))
  }

  // `require` is shadowed at a node if it was above it or the node is a scope that declares it.
  predicate Nested(node: Node, shadowed: bool) {
    shadowed || (IsBindingScope(node) && ScopeDeclares(node))
  }

  function OwnCalls(path: Path, node: Node, shadowed: bool): seq<RuntimeCall> {
    if node.kind.Call? && IsRuntimeImportCall(node.kind.callee, shadowed) then [RuntimeCall(path, node.kind.argument)] else []
  }

  // Recursive descent: the calls of a node, then those of its children in order.
  function Calls(path: Path, node: Node, shadowed: bool): seq<RuntimeCall>
    decreases node, 0
  {
    OwnCalls(path, node, Nested(node, shadowed)) + CallsFrom(path, node.children, 0, Nested(node, shadowed))
  }

  function CallsFrom(path: Path, nodes: seq<Node>, from: nat, shadowed: bool): seq<RuntimeCall>
    requires from <= |nodes|
    decreases nodes, |nodes| - from
  {
    if from == |nodes| then []
    else Calls(path + [from], nodes[from], shadowed) + CallsFrom(path, nodes, from + 1, shadowed)
  }

  function Pending(stack: seq<Visit>): seq<RuntimeCall> {
    if stack == [] then []
    else
      var top := stack[|stack| - 1];
      Calls(top.path, top.node, top.shadowed) + Pending(stack[..|stack| - 1])
  }

  function StackSize(stack: seq<Visit>): nat {
    if stack == [] then 0 else StackSize(stack[..|stack| - 1]) + Size(stack[|stack| - 1].node)
  }

  // A literal argument makes an import, anything else an unsupported dynamic import.
  function Imports(calls: seq<RuntimeCall>): seq<(Path, Text)> {
    if calls == [] then []
    else
      var last := calls[|calls| - 1];
      Imports(calls[..|calls| - 1]) + (if last.argument.Some? then [(last.path, last.argument.value)] else [])
  }

  function Unsupported(calls: seq<RuntimeCall>): seq<Path> {
    if calls == [] then []
    else
      var last := calls[|calls| - 1];
      Unsupported(calls[..|calls| - 1]) + (if last.argument.None? then [last.path] else [])
  }

  // The bindings say of every scope of the tree whether it declares `require`.
  ghost predicate BindingsRight(root: Node, bindings: Bindings) {
    forall path ::
      (path in bindings <==> NodeAt(root, path).Some? && IsBindingScope(NodeAt(root, path).value)) &&
      (path in bindings ==> bindings[path] == ScopeDeclares(NodeAt(root, path).value))
  }

  ghost predicate VisitsAt(root: Node, rootShadowed: bool, stack: seq<Visit>) {
    forall k :: 0 <= k < |stack| ==> VisitAt(root, rootShadowed, stack[k])
  }

  ghost predicate VisitAt(root: Node, rootShadowed: bool, visit: Visit) {
    NodeAt(root, visit.path) == Some(visit.node) && (visit.path == [] ==> visit.shadowed == rootShadowed)
  }

  lemma {:induction false} NodeAtChild(root: Node, path: Path, i: nat)
    requires NodeAt(root, path).Some? && i < |NodeAt(root, path).value.children|
    ensures NodeAt(root, path + [i]) == Some(NodeAt(root, path).value.children[i])
    decreases |path|
  {
    if path == [] {
      assert path + [i] == [i] && [i][1..] == [];
    } else {
      assert (path + [i])[1..] == path[1..] + [i];
      NodeAtChild(root.children[path[0]], path[1..], i);
    }
  }

  // What is pushed for the children of a node: the last child first.
  function ChildVisits(path: Path, nodes: seq<Node>, from: nat, shadowed: bool): (visits: seq<Visit>)
    requires from <= |nodes|
    ensures |visits| == |nodes| - from
    ensures forall k :: 0 <= k < |visits| ==>
      visits[k] == Visit(path + [|nodes| - 1 - k], nodes[|nodes| - 1 - k], shadowed)
    decreases |nodes| - from
  {
    if from == |nodes| then [] else ChildVisits(path, nodes, from + 1, shadowed) + [Visit(path + [from], nodes[from], shadowed)]
  }

  lemma OnTop(stack: seq<Visit>, own: Visit)
    ensures Pending(stack + [own]) == Calls(own.path, own.node, own.shadowed) + Pending(stack)
  {
    assert (stack + [own])[..|stack + [own]| - 1] == stack;
  }

  lemma SizeOnTop(stack: seq<Visit>, own: Visit)
    ensures StackSize(stack + [own]) == StackSize(stack) + Size(own.node)
  {
    assert (stack + [own])[..|stack + [own]| - 1] == stack;
  }

  lemma ChildrenOnTop(stack: seq<Visit>, path: Path, nodes: seq<Node>, from: nat, shadowed: bool)
    requires from < |nodes|
    ensures stack + ChildVisits(path, nodes, from, shadowed)
         == (stack + ChildVisits(path, nodes, from + 1, shadowed)) + [Visit(path + [from], nodes[from], shadowed)]
  {
    ConcatAssociative(stack, ChildVisits(path, nodes, from + 1, shadowed), [Visit(path + [from], nodes[from], shadowed)]);
  }

  lemma {:induction false} PushedSize(stack: seq<Visit>, path: Path, nodes: seq<Node>, from: nat, shadowed: bool)
    requires from <= |nodes|
    ensures StackSize(stack + ChildVisits(path, nodes, from, shadowed)) == StackSize(stack) + SizeFrom(nodes, from)
    decreases |nodes| - from
  {
    if from == |nodes| {
      assert stack + [] == stack;
    } else {
      PushedSize(stack, path, nodes, from + 1, shadowed);
      ChildrenOnTop(stack, path, nodes, from, shadowed);
      SizeOnTop(stack + ChildVisits(path, nodes, from + 1, shadowed), Visit(path + [from], nodes[from], shadowed));
    }
  }

  lemma NextPending(stack: seq<Visit>, own: Visit, later: seq<RuntimeCall>, below: seq<RuntimeCall>)
    requires Pending(stack) == later + below
    ensures Pending(stack + [own]) == (Calls(own.path, own.node, own.shadowed) + later) + below
  {
    OnTop(stack, own);
    ConcatAssociative(Calls(own.path, own.node, own.shadowed), later, below);
  }

  lemma {:induction false} PushedPending(stack: seq<Visit>, path: Path, nodes: seq<Node>, from: nat, shadowed: bool)
    requires from <= |nodes|
    ensures Pending(stack + ChildVisits(path, nodes, from, shadowed)) == CallsFrom(path, nodes, from, shadowed) + Pending(stack)
    decreases |nodes| - from
  {
    if from == |nodes| {
      assert stack + [] == stack;
    } else {
      PushedPending(stack, path, nodes, from + 1, shadowed);
      ChildrenOnTop(stack, path, nodes, from, shadowed);
      NextPending(stack + ChildVisits(path, nodes, from + 1, shadowed), Visit(path + [from], nodes[from], shadowed),
                  CallsFrom(path, nodes, from + 1, shadowed), Pending(stack));
    }
  }

  lemma PushedVisits(root: Node, rootShadowed: bool, stack: seq<Visit>, path: Path, nodes: seq<Node>, shadowed: bool)
    requires VisitsAt(root, rootShadowed, stack) && NodeAt(root, path).Some? && NodeAt(root, path).value.children == nodes
    ensures VisitsAt(root, rootShadowed, stack + ChildVisits(path, nodes, 0, shadowed))
  {
    var visits := ChildVisits(path, nodes, 0, shadowed);
    forall k | |stack| <= k < |stack + visits|
      ensures VisitAt(root, rootShadowed, (stack + visits)[k])
    {
      NodeAtChild(root, path, |nodes| - 1 - (k - |stack|));
    }
  }

  method PushChildren(stack: seq<Visit>, path: Path, nodes: seq<Node>, shadowed: bool) returns (pushed: seq<Visit>)
    ensures pushed == stack + ChildVisits(path, nodes, 0, shadowed)
  {
    pushed := stack;
    for i := |nodes| downto 0
      invariant pushed == stack + ChildVisits(path, nodes, i, shadowed)
    {
      pushed := pushed + [Visit(path + [i], nodes[i], shadowed)];
    }
  }

  // The table and what the frame carries give what recursive descent passes on.
  lemma NestedRight(root: Node, bindings: Bindings, rootShadowed: bool, visit: Visit)
    requires BindingsRight(root, bindings) && rootShadowed == ([] in bindings && bindings[[]])
    requires VisitAt(root, rootShadowed, visit)
    ensures (visit.shadowed || (visit.path != [] && visit.path in bindings && bindings[visit.path])) ==
      Nested(visit.node, visit.shadowed)
  {
    assert visit.path in bindings <==> NodeAt(root, visit.path).Some? && IsBindingScope(NodeAt(root, visit.path).value);
  }

  // Replacing the top of the stack by its children leaves its own calls as the next ones.
  lemma PoppedCalls(done: seq<RuntimeCall>, stack: seq<Visit>)
    requires stack != []
    ensures
      var top, rest := stack[|stack| - 1], stack[..|stack| - 1];
      var nested := Nested(top.node, top.shadowed);
      && done + OwnCalls(top.path, top.node, nested) + Pending(rest + ChildVisits(top.path, top.node.children, 0, nested))
         == done + Pending(stack)
      && StackSize(rest + ChildVisits(top.path, top.node.children, 0, nested)) < StackSize(stack)
  {
    var top, rest := stack[|stack| - 1], stack[..|stack| - 1];
    var nested := Nested(top.node, top.shadowed);
    var own := OwnCalls(top.path, top.node, nested);
    PushedPending(rest, top.path, top.node.children, 0, nested);
    PushedSize(rest, top.path, top.node.children, 0, nested);
    ConcatAssociative(own, CallsFrom(top.path, top.node.children, 0, nested), Pending(rest));
    ConcatAssociative(done, own, Pending(rest + ChildVisits(top.path, top.node.children, 0, nested)));
  }

  lemma RecordedLast(done: seq<RuntimeCall>, call: RuntimeCall)
    ensures Imports(done + [call]) == Imports(done) + (if call.argument.Some? then [(call.path, call.argument.value)] else [])
    ensures Unsupported(done + [call]) == Unsupported(done) + (if call.argument.None? then [call.path] else [])
  {
    assert (done + [call])[..|done + [call]| - 1] == done;
  }

  method CollectRuntimeCalls(root: Node, bindings: Bindings, rootShadowed: bool)
    returns (imports: seq<(Path, Text)>, unsupported: seq<Path>)
    requires root.kind.SourceFile? && BindingsRight(root, bindings)
    requires rootShadowed == ([] in bindings && bindings[[]])
    ensures imports == Imports(Calls([], root, false))
    ensures unsupported == Unsupported(Calls([], root, false))
  {
    imports, unsupported := [], [];
    var stack := [Visit([], root, rootShadowed)];
    ghost var done: seq<RuntimeCall> := [];
    assert stack[..0] == [];
    NestedRight(root, bindings, rootShadowed, stack[0]);
    assert Calls([], root, rootShadowed) == Calls([], root, false);
    while stack != []
      invariant VisitsAt(root, rootShadowed, stack)
      invariant done + Pending(stack) == Calls([], root, false)
      invariant imports == Imports(done) && unsupported == Unsupported(done)
      decreases StackSize(stack)
    {
      var current, rest := stack[|stack| - 1], stack[..|stack| - 1];
      var kind := current.node.kind;
      NestedRight(root, bindings, rootShadowed, current);
      PoppedCalls(done, stack);
      var nested := current.shadowed || (current.path != [] && current.path in bindings && bindings[current.path]);
      ghost var own := OwnCalls(current.path, current.node, nested);
      if kind.Call? && IsRuntimeImportCall(kind.callee, nested) {
        if kind.argument.Some? {
          imports := imports + [(current.path, kind.argument.value)];
        } else {
          unsupported := unsupported + [current.path];
        }
        RecordedLast(done, own[0]);
      } else {
        assert done + own == done;
      }
      stack := PushChildren(rest, current.path, current.node.children, nested);
      PushedVisits(root, rootShadowed, rest, current.path, current.node.children, nested);
      done := done + own;
    }
    assert done + [] == done;
  }

  // ----- The binding table -----

  method ScopeDeclaresRequire(scope: Node) returns (declares: bool)
    ensures declares <==> ScopeDeclares(scope)
  {
    match scope.kind
    case SourceFile =>
      declares := SomeChildDeclaresRequire(scope);
      if !declares {
        declares := ContainsFunctionScopedRequire(scope);
      }
    case Function(form, ownName, parameters, body, _) =>
      declares := AnyContainsRequire(parameters);
      if !declares {
        if form != OtherForm && ownName == Some(REQUIRE) {
          return true;
        }
        if body.Some? && body.value < |scope.children| {
          declares := ContainsFunctionScopedRequire(scope.children[body.value]);
        }
      }
    case Catch(variable) =>
      declares := false;
      if variable.Some? {
        declares := BindingNameContainsRequire(variable.value);
      }
    case For => declares := ChildListDeclaresRequire(scope);
    case Block => declares := SomeChildDeclaresRequire(scope);
    case CaseBlock =>
      for i := 0 to |scope.children|
        invariant forall j :: 0 <= j < i ==> !(scope.children[j].kind.CaseClause? && SomeChildDeclares(scope.children[j]))
      {
        if scope.children[i].kind.CaseClause? {
          var here := SomeChildDeclaresRequire(scope.children[i]);
          if here {
            return true;
          }
        }
      }
      declares := false;
    case _ => declares := false;
  }

  method ChildListDeclaresRequire(node: Node) returns (declares: bool)
    ensures declares <==> ChildListDeclares(node)
  {
    for i := 0 to |node.children|
      invariant forall j :: 0 <= j < i ==> !ListDeclares(node.children[j])
    {
      if node.children[i].kind.VariableDeclarationList? {
        var here := AnyContainsRequire(node.children[i].kind.names);
        if here {
          return true;
        }
      }
    }
    declares := false;
  }

  method StatementDeclaresRequire(statement: Node) returns (declares: bool)
    ensures declares <==> StatementDeclares(statement)
  {
    match statement.kind
    case VariableStatement => declares := ChildListDeclaresRequire(statement);
    case Function(form, ownName, _, _, _) => declares := form == Declared && ownName == Some(REQUIRE);
    case NamedDeclaration(declared) => declares := declared == Some(REQUIRE);
    case ImportDeclaration(bound) => declares := REQUIRE in bound;
    case _ => declares := false;
  }

  method SomeChildDeclaresRequire(node: Node) returns (declares: bool)
    ensures declares <==> SomeChildDeclares(node)
  {
    for i := 0 to |node.children|
      invariant forall j :: 0 <= j < i ==> !StatementDeclares(node.children[j])
    {
      var here := StatementDeclaresRequire(node.children[i]);
      if here {
        return true;
      }
    }
    declares := false;
  }

  // The table entries still to be made for what is on the stack: those at and below its places.
  ghost predicate Covered(stack: seq<Visit>, path: Path) {
    exists k :: 0 <= k < |stack| && stack[k].path <= path
  }

  ghost predicate TableSoFar(root: Node, stack: seq<Visit>, bindings: Bindings) {
    && (forall path :: path in bindings ==> RightEntry(root, bindings, path))
    && (forall path :: NodeAt(root, path).Some? && IsBindingScope(NodeAt(root, path).value) ==> path in bindings || Covered(stack, path))
  }

  ghost predicate RightEntry(root: Node, bindings: Bindings, path: Path)
    requires path in bindings
  {
    && NodeAt(root, path).Some? && IsBindingScope(NodeAt(root, path).value)
    && bindings[path] == ScopeDeclares(NodeAt(root, path).value)
  }

  // What was covered by the top of the stack is the node itself or covered by its children.
  lemma CoveredBelow(root: Node, rest: seq<Visit>, top: Visit, path: Path)
    requires NodeAt(root, top.path) == Some(top.node) && NodeAt(root, path).Some?
    requires Covered(rest + [top], path)
    ensures path == top.path || Covered(rest + ChildVisits(top.path, top.node.children, 0, false), path)
  {
    var visits, n := ChildVisits(top.path, top.node.children, 0, false), |top.node.children|;
    var k :| 0 <= k < |rest| + 1 && (rest + [top])[k].path <= path;
    if k < |rest| {
      assert (rest + visits)[k] == rest[k];
    } else if path != top.path {
      var i := path[|top.path|];
      StepWithin(root, top.path, path);
      assert top.path + [i] <= path;
      assert (rest + visits)[|rest| + n - 1 - i].path == top.path + [i];
    }
  }

  lemma {:induction false} StepWithin(root: Node, prefix: Path, path: Path)
    requires prefix <= path && |prefix| < |path| && NodeAt(root, path).Some? && NodeAt(root, prefix).Some?
    ensures path[|prefix|] < |NodeAt(root, prefix).value.children|
    decreases |prefix|
  {
    if prefix != [] {
      StepWithin(root.children[path[0]], prefix[1..], path[1..]);
    }
  }

  // Making the entry of the top of the stack, if it is a scope, and pushing its children keeps the table going.
  lemma TableStep(root: Node, rest: seq<Visit>, top: Visit, bindings: Bindings, extended: Bindings)
    requires NodeAt(root, top.path) == Some(top.node) && TableSoFar(root, rest + [top], bindings)
    requires extended == if IsBindingScope(top.node) then bindings[top.path := ScopeDeclares(top.node)] else bindings
    ensures TableSoFar(root, rest + ChildVisits(top.path, top.node.children, 0, false), extended)
  {
    forall path | path in extended
      ensures RightEntry(root, extended, path)
    {
      if path in bindings {
        assert RightEntry(root, bindings, path);
      }
    }
    forall path | NodeAt(root, path).Some? && IsBindingScope(NodeAt(root, path).value)
      ensures path in extended || Covered(rest + ChildVisits(top.path, top.node.children, 0, false), path)
    {
      if path !in bindings {
        CoveredBelow(root, rest, top, path);
      }
    }
  }

  method VisitBindingScopes(root: Node) returns (bindings: Bindings)
    ensures BindingsRight(root, bindings)
  {
    bindings := map[];
    var stack := [Visit([], root, false)];
    assert stack[..0] == [];
    assert stack[0].path == [];
    while stack != []
      invariant VisitsAt(root, false, stack) && TableSoFar(root, stack, bindings)
      decreases StackSize(stack)
    {
      var current, rest := stack[|stack| - 1], stack[..|stack| - 1];
      ghost var before := bindings;
      if IsBindingScope(current.node) {
        var declares := ScopeDeclaresRequire(current.node);
        bindings := bindings[current.path := declares];
      }
      assert stack == rest + [current];
      TableStep(root, rest, current, before, bindings);
      stack := PushChildren(rest, current.path, current.node.children, false);
      PushedSize(rest, current.path, current.node.children, 0, false);
      PushedVisits(root, false, rest, current.path, current.node.children, false);
    }
    TableComplete(root, bindings);
  }

  lemma TableComplete(root: Node, bindings: Bindings)
    requires TableSoFar(root, [], bindings)
    ensures BindingsRight(root, bindings)
  {
    forall path | path in bindings
      ensures RightEntry(root, bindings, path)
    {
    }
  }

  // All runtime calls of a source file, with the table built first.
  method CollectFileCalls(root: Node) returns (imports: seq<(Path, Text)>, unsupported: seq<Path>)
    requires root.kind.SourceFile?
    ensures imports == Imports(Calls([], root, false))
    ensures unsupported == Unsupported(Calls([], root, false))
  {
    var bindings := VisitBindingScopes(root);
    imports, unsupported := CollectRuntimeCalls(root, bindings, [] in bindings && bindings[[]]);
  }

  // ----- Lexical scoping -----

  // Some scope around the place, or the place itself, declares `require`.
  ghost predicate ShadowedAt(root: Node, path: Path) {
    exists k :: 0 <= k <= |path| && DeclaresAt(root, path[..k])
  }

  ghost predicate DeclaresAt(root: Node, path: Path) {
    NodeAt(root, path).Some? && IsBindingScope(NodeAt(root, path).value) && ScopeDeclares(NodeAt(root, path).value)
  }

  // The callee is the name `require` or the member `require.resolve`.
  ghost predicate CallsRequire(callee: Callee) {
    callee == Name(Codes("require")) || callee == Member(Some(Codes("require")), Codes("resolve"))
  }

  lemma ImportCallExact(callee: Callee, shadowed: bool)
    ensures IsRuntimeImportCall(callee, shadowed) <==> callee == ImportKeyword || (CallsRequire(callee) && !shadowed)
  {
    assert REQUIRE == Codes("require") && RESOLVE == Codes("resolve");
  }

  // A call with this argument is there, and it is `import()` or calls `require` where no scope around it declares it.
  ghost predicate RecordedAt(root: Node, path: Path, shadowed: bool, argument: Option<Text>) {
    && NodeAt(root, path).Some? && NodeAt(root, path).value.kind.Call?
    && NodeAt(root, path).value.kind.argument == argument
    && var callee := NodeAt(root, path).value.kind.callee;
       callee == ImportKeyword || (CallsRequire(callee) && !shadowed && !ShadowedAt(root, path))
  }

  lemma OwnCallExact(at: Path, node: Node, shadowed: bool, call: RuntimeCall)
    ensures call in OwnCalls(at, node, Nested(node, shadowed)) <==>
      call.path == at && RecordedAt(node, [], shadowed, call.argument)
  {
    var none: Path := [];
    assert none[..0] == none;
    assert ShadowedAt(node, none) <==> DeclaresAt(node, none);
    if node.kind.Call? {
      ImportCallExact(node.kind.callee, Nested(node, shadowed));
    }
  }

  lemma ShadowedBelow(node: Node, i: nat, rest: Path)
    requires i < |node.children|
    ensures ShadowedAt(node, [i] + rest) <==> DeclaresAt(node, []) || ShadowedAt(node.children[i], rest)
  {
    var path := [i] + rest;
    assert path[..0] == [];
    forall k | 0 <= k <= |rest|
      ensures DeclaresAt(node, path[..k + 1]) <==> DeclaresAt(node.children[i], rest[..k])
    {
      assert path[..k + 1][1..] == rest[..k];
    }
    if ShadowedAt(node, path) {
      var k :| 0 <= k <= |path| && DeclaresAt(node, path[..k]);
      if k > 0 {
        assert DeclaresAt(node.children[i], rest[..k - 1]);
      }
    }
    if ShadowedAt(node.children[i], rest) {
      var k :| 0 <= k <= |rest| && DeclaresAt(node.children[i], rest[..k]);
      assert DeclaresAt(node, path[..k + 1]);
    }
  }

  // A call is recorded exactly if it is `import()`, or `require()` or `require.resolve()` with no scope around it that
  // declares `require`.
  lemma {:induction false} CallsExact(at: Path, node: Node, shadowed: bool, call: RuntimeCall)
    ensures call in Calls(at, node, shadowed) <==>
      at <= call.path && RecordedAt(node, call.path[|at|..], shadowed, call.argument)
    decreases node, 0
  {
    CallsFromExact(at, node, 0, shadowed, call);
    OwnCallExact(at, node, shadowed, call);
    if at <= call.path && call.path[|at|..] == [] {
      assert call.path == at;
    }
  }

  // Of a file, a literal argument makes the call an import and anything else an unsupported dynamic import.
  lemma {:induction false} SplitCalls(calls: seq<RuntimeCall>, path: Path, specifier: Text)
    ensures (path, specifier) in Imports(calls) <==> RuntimeCall(path, Some(specifier)) in calls
    ensures path in Unsupported(calls) <==> RuntimeCall(path, None) in calls
  {
    if calls != [] {
      SplitCalls(calls[..|calls| - 1], path, specifier);
    }
  }

  lemma FileCallsExact(root: Node, path: Path, specifier: Text)
    ensures (path, specifier) in Imports(Calls([], root, false)) <==> RecordedAt(root, path, false, Some(specifier))
    ensures path in Unsupported(Calls([], root, false)) <==> RecordedAt(root, path, false, None)
  {
    assert path[0..] == path;
    SplitCalls(Calls([], root, false), path, specifier);
    CallsExact([], root, false, RuntimeCall(path, Some(specifier)));
    CallsExact([], root, false, RuntimeCall(path, None));
  }

  ghost predicate RecordedBelow(at: Path, node: Node, from: nat, shadowed: bool, call: RuntimeCall) {
    && at <= call.path && |at| < |call.path| && from <= call.path[|at|]
    && RecordedAt(node, call.path[|at|..], shadowed, call.argument)
  }

  lemma {:induction false} CallsFromExact(at: Path, node: Node, from: nat, shadowed: bool, call: RuntimeCall)
    requires from <= |node.children|
    ensures call in CallsFrom(at, node.children, from, Nested(node, shadowed)) <==> RecordedBelow(at, node, from, shadowed, call)
    decreases node.children, |node.children| - from
  {
    if from < |node.children| {
      CallsFromExact(at, node, from + 1, shadowed, call);
      CallsExact(at + [from], node.children[from], Nested(node, shadowed), call);
      ChildRecorded(at, node, from, shadowed, call);
    }
  }

  lemma ChildRecorded(at: Path, node: Node, i: nat, shadowed: bool, call: RuntimeCall)
    requires i < |node.children|
    ensures at + [i] <= call.path && RecordedAt(node.children[i], call.path[|at| + 1..], Nested(node, shadowed), call.argument) <==>
      RecordedBelow(at, node, i, shadowed, call) && call.path[|at|] == i
  {
    if at <= call.path && |at| < |call.path| && call.path[|at|] == i {
      var rest := call.path[|at| + 1..];
      assert call.path[|at|..] == [i] + rest;
      ShadowedBelow(node, i, rest);
      assert ([i] + rest)[1..] == rest;
      assert at + [i] <= call.path;
    }
  }

  // ----- Each call once, in source order -----

  ghost predicate InOrder(calls: seq<RuntimeCall>) {
    forall i, j :: 0 <= i < j < |calls| ==> Less(calls[i].path, calls[j].path)
  }

  lemma InOrderConcat(a: seq<RuntimeCall>, b: seq<RuntimeCall>)
    requires InOrder(a) && InOrder(b) && forall x, y :: x in a && y in b ==> Less(x.path, y.path)
    ensures InOrder(a + b)
  {
  }

  // Calls are listed in the order of their places, so none is listed twice.
  lemma {:induction false} CallsInOrder(at: Path, node: Node, shadowed: bool)
    ensures InOrder(Calls(at, node, shadowed))
    decreases node, 0
  {
    var own, below := OwnCalls(at, node, Nested(node, shadowed)), CallsFrom(at, node.children, 0, Nested(node, shadowed));
    CallsFromInOrder(at, node, 0, shadowed);
    forall x, y | x in own && y in below
      ensures Less(x.path, y.path)
    {
      CallsFromExact(at, node, 0, shadowed, y);
      LessFromWitness(at, y.path, |at|);
    }
    InOrderConcat(own, below);
  }

  lemma {:induction false} CallsFromInOrder(at: Path, node: Node, from: nat, shadowed: bool)
    requires from <= |node.children|
    ensures InOrder(CallsFrom(at, node.children, from, Nested(node, shadowed)))
    decreases node.children, |node.children| - from
  {
    if from < |node.children| {
      var nested := Nested(node, shadowed);
      var first, others := Calls(at + [from], node.children[from], nested), CallsFrom(at, node.children, from + 1, nested);
      CallsInOrder(at + [from], node.children[from], nested);
      CallsFromInOrder(at, node, from + 1, shadowed);
      forall x, y | x in first && y in others
        ensures Less(x.path, y.path)
      {
        CallsExact(at + [from], node.children[from], nested, x);
        CallsFromExact(at, node, from + 1, shadowed, y);
        assert x.path[|at|] == (at + [from])[|at|] && x.path[..|at|] == at == y.path[..|at|];
        LessFromWitness(x.path, y.path, |at|);
      }
      InOrderConcat(first, others);
    }
  }
}
