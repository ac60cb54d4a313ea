/**
 The syntax tree as far as `require` is concerned, and which scopes declare it
 (packages/compiler/src/typescript-source.ts, scopeDeclaresRequire and what it calls).
 */
module SyntaxScopes {
  import opened Wrappers
  import opened Texts

  const REQUIRE: Text := [114, 101, 113, 117, 105, 114, 101]
  const RESOLVE: Text := [114, 101, 115, 111, 108, 118, 101]

  datatype BindingName = Identifier(text: Text) | Pattern(elements: seq<BindingElement>)

  datatype BindingElement = Omitted | Element(name: BindingName)

  datatype Callee = ImportKeyword | Name(text: Text) | Member(object: Option<Text>, property: Text) | OtherCallee

  datatype FunctionForm = Declared | Expressed | OtherForm

  datatype Kind =
    | SourceFile
    | Block
    | CaseBlock
    | CaseClause
    | Catch(variable: Option<BindingName>)
    | For
    | Function(form: FunctionForm, ownName: Option<Text>, parameters: seq<BindingName>, body: Option<nat>, header: nat)
    | FunctionSignature                              // function-like, but no scope of its own
    | ClassStaticBlock                               // its body is a block; not function-like
    | ModuleBlock                                    // the body of a namespace; not function-like
    | VariableStatement
    | VariableDeclarationList(blockScoped: bool, names: seq<BindingName>)
    | NamedDeclaration(declared: Option<Text>)       // a class, an enum or an import-equals declaration
    | Namespace(declared: Option<Text>)
    | ClassExpression(ownName: Option<Text>)
    | ImportDeclaration(bound: seq<Text>)            // its default, namespace and named bindings
    | Call(callee: Callee, argument: Option<Text>)   // the first argument, if it is a string literal
    | OtherKind

  // A body is one of the children of its function. The first `header` children are its decorators and its computed name,
  // which are evaluated outside it.
  datatype Node = Node(kind: Kind, children: seq<Node>)

  type Path = seq<nat>

  function Size(node: Node): nat
    decreases node, 0
  {
    1 + SizeFrom(node.children, 0)
  }

  function SizeFrom(nodes: seq<Node>, from: nat): nat
    requires from <= |nodes|
    decreases nodes, |nodes| - from
  {
    if from == |nodes| then 0 else Size(nodes[from]) + SizeFrom(nodes, from + 1)
  }

  // ----- Names bound by a pattern -----

  predicate Binds(name: BindingName)
    decreases name, 0
  {
    match name
    case Identifier(text) => text == REQUIRE
    case Pattern(elements) => ElementsBind(elements, 0)
  }

  predicate ElementsBind(elements: seq<BindingElement>, from: nat)
    requires from <= |elements|
    decreases elements, |elements| - from
  {
    from < |elements| && (ElementBinds(elements[from]) || ElementsBind(elements, from + 1))
  }

  predicate ElementBinds(element: BindingElement)
    decreases element
  {
    match element
    case Omitted => false
    case Element(name) => Binds(name)
  }

  predicate AnyBinds(names: seq<BindingName>) {
    exists i :: 0 <= i < |names| && Binds(names[i])
  }

  function NameSize(name: BindingName): nat
    decreases name, 0
  {
    match name
    case Identifier(_) => 1
    case Pattern(elements) => 1 + ElementsSize(elements, 0)
  }

  function ElementsSize(elements: seq<BindingElement>, from: nat): nat
    requires from <= |elements|
    decreases elements, |elements| - from
  {
    if from == |elements| then 0 else ElementSize(elements[from]) + ElementsSize(elements, from + 1)
  }

  function ElementSize(element: BindingElement): nat
    decreases element
  {
    match element
    case Omitted => 0
    case Element(name) => NameSize(name)
  }

  function NamesSize(stack: seq<BindingName>): nat {
    if stack == [] then 0 else NamesSize(stack[..|stack| - 1]) + NameSize(stack[|stack| - 1])
  }

  predicate Bound(stack: seq<BindingName>) {
    stack != [] && (Bound(stack[..|stack| - 1]) || Binds(stack[|stack| - 1]))
  }

  // The stack loop over nested patterns finds `require` exactly where the recursive rule does.
  method BindingNameContainsRequire(name: BindingName) returns (found: bool)
    ensures found <==> Binds(name)
  {
    var stack := [name];
    assert stack[..0] == [];
    while stack != []
      invariant Bound(stack) <==> Binds(name)
      decreases NamesSize(stack)
    {
      var current := stack[|stack| - 1];
      stack := stack[..|stack| - 1];
      match current
      case Identifier(text) =>
        if text == REQUIRE {
          return true;
        }
      case Pattern(elements) =>
        ghost var rest := stack;
        for index := |elements| downto 0
          invariant NamesSize(stack) == NamesSize(rest) + ElementsSize(elements, index)
          invariant Bound(stack) <==> Bound(rest) || ElementsBind(elements, index)
        {
          if elements[index].Element? {
            ghost var before := stack;
            stack := stack + [elements[index].name];
            assert stack[..|stack| - 1] == before;
          }
        }
    }
    found := false;
  }

  method AnyContainsRequire(names: seq<BindingName>) returns (found: bool)
    ensures found <==> AnyBinds(names)
  {
    for i := 0 to |names|
      invariant forall j :: 0 <= j < i ==> !Binds(names[j])
    {
      var here := BindingNameContainsRequire(names[i]);
      if here {
        return true;
      }
    }
    found := false;
  }

  // ----- Declarations -----

  predicate ListDeclares(node: Node) {
    node.kind.VariableDeclarationList? && AnyBinds(node.kind.names)
  }

  // A direct child is a variable declaration list that declares it.
  predicate ChildListDeclares(node: Node) {
    exists i :: 0 <= i < |node.children| && ListDeclares(node.children[i])
  }

  predicate StatementDeclares(node: Node) {
    match node.kind
    case VariableStatement => ChildListDeclares(node)
    case Function(form, ownName, _, _, _) => form == Declared && ownName == Some(REQUIRE)
    case NamedDeclaration(declared) => declared == Some(REQUIRE)
    case ImportDeclaration(bound) => REQUIRE in bound
    case _ => false
  }

  predicate SomeChildDeclares(node: Node) {
    exists i :: 0 <= i < |node.children| && StatementDeclares(node.children[i])
  }

  predicate IsFunctionLike(node: Node) {
    node.kind.Function? || node.kind.FunctionSignature?
  }

  predicate HoistsHere(node: Node) {
    node.kind.VariableDeclarationList? && !node.kind.blockScoped && AnyBinds(node.kind.names)
  }

  // A `var` that declares it, below a node but not inside a function strictly below the node. Where the node itself is a
  // function, this looks into it: LexicalScopes says what follows from that.
  predicate Hoists(node: Node)
    decreases node, 0
  {
    HoistsHere(node) || HoistsFrom(node.children, 0)
  }

  predicate HoistsFrom(nodes: seq<Node>, from: nat)
    requires from <= |nodes|
    decreases nodes, |nodes| - from
  {
    from < |nodes| && ((!IsFunctionLike(nodes[from]) && Hoists(nodes[from])) || HoistsFrom(nodes, from + 1))
  }

  predicate IsBindingScope(node: Node) {
    match node.kind
    case SourceFile | Block | CaseBlock | Catch(_) | For | Function(_, _, _, _, _) => true
    case _ => false
  }

  predicate ScopeDeclares(scope: Node) {
    match scope.kind
    case SourceFile => SomeChildDeclares(scope) || Hoists(scope)
    case Function(form, ownName, parameters, body, _) =>
      || AnyBinds(parameters)
      || (form != OtherForm && ownName == Some(REQUIRE))
      || (body.Some? && body.value < |scope.children| && Hoists(scope.children[body.value]))
    case Catch(variable) => variable.Some? && Binds(variable.value)
    case For => ChildListDeclares(scope)
    case Block => SomeChildDeclares(scope)
    case CaseBlock =>
      exists i :: 0 <= i < |scope.children| && scope.children[i].kind.CaseClause? && SomeChildDeclares(scope.children[i])
    case _ => false
  }

  // ----- The stack loop over one scope -----

  // Frames remember whether they are the node the loop began at.
  datatype Frame = Frame(node: Node, first: bool)

  predicate FrameHoists(frame: Frame) {
    (frame.first || !IsFunctionLike(frame.node)) && Hoists(frame.node)
  }

  predicate StackHoists(stack: seq<Frame>) {
    stack != [] && (StackHoists(stack[..|stack| - 1]) || FrameHoists(stack[|stack| - 1]))
  }

  function StackSize(stack: seq<Frame>): nat {
    if stack == [] then 0 else StackSize(stack[..|stack| - 1]) + Size(stack[|stack| - 1].node)
  }

  method PushChildren(stack: seq<Frame>, nodes: seq<Node>) returns (pushed: seq<Frame>)
    ensures StackSize(pushed) == StackSize(stack) + SizeFrom(nodes, 0)
    ensures StackHoists(pushed) <==> StackHoists(stack) || HoistsFrom(nodes, 0)
  {
    pushed := stack;
    for i := |nodes| downto 0
      invariant StackSize(pushed) == StackSize(stack) + SizeFrom(nodes, i)
      invariant StackHoists(pushed) <==> StackHoists(stack) || HoistsFrom(nodes, i)
    {
      ghost var before := pushed;
      pushed := pushed + [Frame(nodes[i], false)];
      assert pushed[..|pushed| - 1] == before;
    }
  }

  method ContainsFunctionScopedRequire(node: Node) returns (found: bool)
    ensures found <==> Hoists(node)
  {
    var stack := [Frame(node, true)];
    assert stack[..0] == [];
    while stack != []
      invariant StackHoists(stack) <==> Hoists(node)
      decreases StackSize(stack)
    {
      var frame := stack[|stack| - 1];
      stack := stack[..|stack| - 1];
      if frame.first || !IsFunctionLike(frame.node) {
        var kind := frame.node.kind;
        if kind.VariableDeclarationList? && !kind.blockScoped {
          var declares := AnyContainsRequire(kind.names);
          if declares {
            return true;
          }
        }
        stack := PushChildren(stack, frame.node.children);
      }
    }
    found := false;
  }

  // ----- What hoisting means -----

  function NodeAt(root: Node, path: Path): Option<Node>
    decreases |path|
  {
    if path == [] then Some(root)
    else if path[0] >= |root.children| then None
    else NodeAt(root.children[path[0]], path[1..])
  }

  // No function lies strictly between the root and the place, or at the place.
  ghost predicate OutsideFunctions(root: Node, path: Path) {
    forall k :: 0 < k <= |path| && NodeAt(root, path[..k]).Some? ==> !IsFunctionLike(NodeAt(root, path[..k]).value)
  }

  ghost predicate VarAt(root: Node, path: Path) {
    NodeAt(root, path).Some? && HoistsHere(NodeAt(root, path).value) && OutsideFunctions(root, path)
  }

  lemma {:induction false} HoistsExact(node: Node)
    ensures Hoists(node) <==> exists path :: VarAt(node, path)
    decreases node, 0
  {
    if HoistsHere(node) {
      assert VarAt(node, []);
    }
    HoistsFromExact(node, 0);
    if path :| VarAt(node, path) {
      if path != [] {
        assert VarBelow(node, 0, path);
      }
    }
  }

  ghost predicate VarBelow(node: Node, from: nat, path: Path) {
    path != [] && from <= path[0] && VarAt(node, path)
  }

  lemma {:induction false} HoistsFromExact(node: Node, from: nat)
    requires from <= |node.children|
    ensures HoistsFrom(node.children, from) <==> exists path :: VarBelow(node, from, path)
    decreases node.children, |node.children| - from
  {
    if from < |node.children| {
      HoistsFromExact(node, from + 1);
      var child := node.children[from];
      HoistsExact(child);
      if !IsFunctionLike(child) && Hoists(child) {
        var rest :| VarAt(child, rest);
        ChildVar(node, from, rest);
        assert VarBelow(node, from, [from] + rest);
      }
      if path :| VarBelow(node, from, path) {
        if path[0] == from {
          assert path == [from] + path[1..];
          ChildVar(node, from, path[1..]);
        } else {
          assert VarBelow(node, from + 1, path);
        }
      }
      var next := from + 1;
      if path :| VarBelow(node, next, path) {
        assert VarBelow(node, from, path);
      }
    } else {
      forall path: Path | path != [] && from <= path[0]
        ensures NodeAt(node, path).None?
      {
      }
    }
  }

  lemma ChildVar(node: Node, i: nat, rest: Path)
    requires i < |node.children|
    ensures VarAt(node, [i] + rest) <==> !IsFunctionLike(node.children[i]) && VarAt(node.children[i], rest)
  {
    var path := [i] + rest;
    assert path[1..] == rest;
    forall k | 0 < k <= |path|
      ensures NodeAt(node, path[..k]) == NodeAt(node.children[i], rest[..k - 1])
    {
      assert path[..k][1..] == rest[..k - 1];
    }
    if VarAt(node, path) {
      assert NodeAt(node, path[..1]) == Some(node.children[i]);
      forall k | 0 < k <= |rest| && NodeAt(node.children[i], rest[..k]).Some?
        ensures !IsFunctionLike(NodeAt(node.children[i], rest[..k]).value)
      {
        assert NodeAt(node, path[..k + 1]) == NodeAt(node.children[i], rest[..k]);
      }
    }
  }
}
