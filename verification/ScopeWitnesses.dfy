/**
 Files on which recording and lexical scoping differ, one for each way that RecordedExactly leaves open
 (packages/compiler/src/typescript-source.ts, scopeDeclaresRequire and containsFunctionScopedRequire).
 */
module ScopeWitnesses {
  import opened Wrappers
  import opened Texts
  import opened SyntaxScopes
  import opened RuntimeCalls
  import opened LexicalScopes

  const SPECIFIER: Text := [46, 47, 97]
  const PARAMETER: Text := [112]

  const REQUIRE_CALL := Node(Call(Name(REQUIRE), Some(SPECIFIER)), [])
  const EXPRESSION := Node(OtherKind, [REQUIRE_CALL])
  const VAR_LIST := Node(VariableDeclarationList(false, [Identifier(REQUIRE)]), [])
  const VAR_BLOCK := Node(Block, [Node(VariableStatement, [VAR_LIST])])

  // (p = require("./a")) => () => { var require = 1; }
  const INNER_ARROW := Node(Function(OtherForm, None, [], Some(0), 0), [VAR_BLOCK])
  const OUTER_ARROW := Node(Function(OtherForm, None, [Identifier(PARAMETER)], Some(1), 0), [EXPRESSION, INNER_ARROW])
  const ARROW_FILE := Node(SourceFile, [Node(OtherKind, [OUTER_ARROW])])

  // (p = require("./a")) => { var require = 1; }
  const PLAIN_ARROW := Node(Function(OtherForm, None, [Identifier(PARAMETER)], Some(1), 0), [EXPRESSION, VAR_BLOCK])
  const DEFAULT_FILE := Node(SourceFile, [Node(OtherKind, [PLAIN_ARROW])])

  // class C { static { var require = 1; } } require("./a");
  const STATIC_CLASS := Node(NamedDeclaration(Some([67])), [Node(ClassStaticBlock, [VAR_BLOCK])])
  const STATIC_FILE := Node(SourceFile, [STATIC_CLASS, EXPRESSION])

  // namespace N { function require() {} require("./a"); }
  const OWN_REQUIRE := Node(Function(Declared, Some(REQUIRE), [], Some(0), 0), [Node(Block, [])])
  const NAMESPACE := Node(Namespace(Some([78])), [Node(ModuleBlock, [OWN_REQUIRE, EXPRESSION])])
  const NAMESPACE_FILE := Node(SourceFile, [NAMESPACE])

  lemma DeclaresInside(node: Node, place: Path, mode: Mode)
    requires !Declares(node, mode) && DeclaresFrom(node, place, mode)
    ensures place != [] && place[0] < |node.children| && DeclaresFrom(node.children[place[0]], place[1..], mode)
    ensures place == [place[0]] + place[1..]
  {
  }

  lemma ListHoists()
    ensures HoistsHere(VAR_LIST)
  {
    assert Binds(VAR_LIST.kind.names[0]);
  }

  lemma NothingInExpression(place: Path, mode: Mode)
    ensures !DeclaresFrom(EXPRESSION, place, mode)
  {
    if DeclaresFrom(EXPRESSION, place, mode) {
      DeclaresInside(EXPRESSION, place, mode);
    }
  }

  lemma VarInBlock(place: Path, mode: Mode)
    requires DeclaresFrom(VAR_BLOCK, place, mode)
    ensures place == [0, 0] && mode == Hoisted
  {
    DeclaresInside(VAR_BLOCK, place, mode);
    DeclaresInside(VAR_BLOCK.children[0], place[1..], mode);
    assert Binds(Identifier(REQUIRE));
    assert place[1..][1..] == [];
  }

  lemma VarInArrow(place: Path, mode: Mode)
    requires DeclaresFrom(INNER_ARROW, place, mode)
    ensures place == [0, 0, 0] && mode == Hoisted
  {
    DeclaresInside(INNER_ARROW, place, mode);
    VarInBlock(place[1..], mode);
  }

  lemma VarInArrowFile(place: Path, mode: Mode)
    requires DeclaresFrom(ARROW_FILE, place, mode)
    ensures place == [0, 0, 1, 0, 0, 0] && mode == Hoisted
  {
    DeclaresInside(ARROW_FILE, place, mode);
    DeclaresInside(ARROW_FILE.children[0], place[1..], mode);
    var below := place[1..][1..];
    assert PARAMETER != REQUIRE;
    DeclaresInside(OUTER_ARROW, below, mode);
    if below[0] == 0 {
      NothingInExpression(below[1..], mode);
    } else {
      VarInArrow(below[1..], mode);
    }
  }

  lemma VarInStaticFile(place: Path, mode: Mode)
    requires DeclaresFrom(STATIC_FILE, place, mode)
    ensures place == [0, 0, 0, 0, 0] && mode == Hoisted
  {
    DeclaresInside(STATIC_FILE, place, mode);
    if place[0] == 1 {
      NothingInExpression(place[1..], mode);
    } else {
      DeclaresInside(STATIC_CLASS, place[1..], mode);
      var below := place[1..][1..];
      DeclaresInside(STATIC_CLASS.children[0], below, mode);
      VarInBlock(below[1..], mode);
    }
  }

  // Lexical scoping asks for the call, but it is not recorded.
  ghost predicate Lost(root: Node, call: RuntimeCall) {
    ShouldRecord(root, call) && call !in Calls([], root, false)
  }

  lemma LostCall(root: Node, call: RuntimeCall)
    requires root.kind.SourceFile? && RequireCallAt(root, call.path)
    requires NodeAt(root, call.path).value.kind.argument == call.argument && WronglyShadowed(root, call.path)
    ensures Lost(root, call)
  {
    RecordedCall(root, call);
  }

  lemma Step(root: Node, path: Path, i: nat)
    requires path != [] && NodeAt(root, path[..|path| - 1]).Some? && path[|path| - 1] == i
    requires i < |NodeAt(root, path[..|path| - 1]).value.children|
    ensures NodeAt(root, path) == Some(NodeAt(root, path[..|path| - 1]).value.children[i])
  {
    assert path == path[..|path| - 1] + [i];
    NodeChild(root, path[..|path| - 1], i);
  }

  lemma ArrowPlaces(path: Path)
    requires path <= [0, 0, 1, 0, 0, 0]
    ensures NodeAt(ARROW_FILE, path) == Some(
      [ARROW_FILE, ARROW_FILE.children[0], OUTER_ARROW, INNER_ARROW, VAR_BLOCK, VAR_BLOCK.children[0], VAR_LIST][|path|])
  {
    if path != [] {
      var before := path[..|path| - 1];
      ArrowPlaces(before);
      assert path == [0, 0, 1, 0, 0, 0][..|path|];
      Step(ARROW_FILE, path, path[|path| - 1]);
    }
  }

  lemma ArrowCall()
    ensures NodeAt(ARROW_FILE, [0, 0, 0, 0]) == Some(REQUIRE_CALL)
  {
    assert [0, 0, 0, 0] == [0, 0] + [0, 0];
    ArrowPlaces([0, 0]);
    NodeBelow(ARROW_FILE, [0, 0], [0, 0]);
  }

  lemma ArrowReached()
    ensures Reaches(ARROW_FILE, [0, 0], [0, 0, 1, 0, 0, 0])
  {
    var place: Path := [0, 0, 1, 0, 0, 0];
    ArrowPlaces([0, 0]);
    forall k | 3 < k <= |place|
      ensures NodeAt(ARROW_FILE, place[..k]).Some? && !IsFunctionLike(NodeAt(ARROW_FILE, place[..k]).value)
    {
      ArrowPlaces(place[..k]);
    }
  }

  lemma ArrowOwner()
    ensures !InScopeOf(ARROW_FILE, [0, 0, 1, 0, 0, 0], Hoisted, [0, 0, 0, 0])
  {
    var place: Path := [0, 0, 1, 0, 0, 0];
    forall k: nat | NearestOwner(ARROW_FILE, place, k, Hoisted)
      ensures k == 3
    {
      ArrowPlaces(place[..k]);
      ArrowPlaces(place[..3]);
      assert OwnerAt(ARROW_FILE, place[..3], Hoisted);
    }
    ArrowPlaces(place[..3]);
    assert place[..4][2] == 1;
  }

  // The call in the default value is outside the inner arrow, whose `var` the walk from the outer one finds.
  lemma NestedArrow()
    ensures Lost(ARROW_FILE, RuntimeCall([0, 0, 0, 0], Some(SPECIFIER)))
  {
    var place: Path, at: Path := [0, 0, 1, 0, 0, 0], [0, 0, 0, 0];
    ArrowCall();
    ArrowOwner();
    ArrowReached();
    ArrowPlaces(place);
    ListHoists();
    forall other, mode | DeclaresFrom(ARROW_FILE, other, mode)
      ensures !Visible(ARROW_FILE, other, mode, at)
    {
      VarInArrowFile(other, mode);
    }
    assert at[..2] == [0, 0];
    assert Leaks(ARROW_FILE, place, Hoisted, at);
    LostCall(ARROW_FILE, RuntimeCall(at, Some(SPECIFIER)));
  }

  lemma VarInDefaultFile(place: Path, mode: Mode)
    requires DeclaresFrom(DEFAULT_FILE, place, mode)
    ensures place == [0, 0, 1, 0, 0] && mode == Hoisted
  {
    DeclaresInside(DEFAULT_FILE, place, mode);
    DeclaresInside(DEFAULT_FILE.children[0], place[1..], mode);
    var below := place[1..][1..];
    assert PARAMETER != REQUIRE;
    DeclaresInside(PLAIN_ARROW, below, mode);
    if below[0] == 0 {
      NothingInExpression(below[1..], mode);
    } else {
      VarInBlock(below[1..], mode);
    }
  }

  lemma DefaultPlaces(path: Path)
    requires path <= [0, 0, 1, 0, 0]
    ensures NodeAt(DEFAULT_FILE, path) == Some(
      [DEFAULT_FILE, DEFAULT_FILE.children[0], PLAIN_ARROW, VAR_BLOCK, VAR_BLOCK.children[0], VAR_LIST][|path|])
  {
    if path != [] {
      DefaultPlaces(path[..|path| - 1]);
      assert path == [0, 0, 1, 0, 0][..|path|];
      Step(DEFAULT_FILE, path, path[|path| - 1]);
    }
  }

  lemma DefaultOwner()
    ensures !InScopeOf(DEFAULT_FILE, [0, 0, 1, 0, 0], Hoisted, [0, 0, 0, 0])
    ensures Reaches(DEFAULT_FILE, [0, 0], [0, 0, 1, 0, 0])
  {
    var place: Path := [0, 0, 1, 0, 0];
    forall k: nat | k <= |place|
      ensures OwnerAt(DEFAULT_FILE, place[..k], Hoisted) <==> k == 0 || k == 2
      ensures NodeAt(DEFAULT_FILE, place[..k]).Some? && (IsFunctionLike(NodeAt(DEFAULT_FILE, place[..k]).value) <==> k == 2)
    {
      DefaultPlaces(place[..k]);
    }
    DefaultPlaces([0, 0]);
    assert OwnerAt(DEFAULT_FILE, place[..2], Hoisted) && place[..2] == [0, 0];
    assert place[..3] == [0, 0, 1];
  }

  // A `var` of the body is not visible in a default value of a parameter, but it silences the call there.
  lemma ParameterDefault()
    ensures Lost(DEFAULT_FILE, RuntimeCall([0, 0, 0, 0], Some(SPECIFIER)))
  {
    var place: Path, at: Path := [0, 0, 1, 0, 0], [0, 0, 0, 0];
    DefaultPlaces([0, 0]);
    NodeBelow(DEFAULT_FILE, [0, 0], [0, 0]);
    assert [0, 0] + [0, 0] == at;
    DefaultOwner();
    DefaultPlaces(place);
    ListHoists();
    forall other, mode | DeclaresFrom(DEFAULT_FILE, other, mode)
      ensures !Visible(DEFAULT_FILE, other, mode, at)
    {
      VarInDefaultFile(other, mode);
    }
    assert at[..2] == [0, 0];
    assert Leaks(DEFAULT_FILE, place, Hoisted, at);
    LostCall(DEFAULT_FILE, RuntimeCall(at, Some(SPECIFIER)));
  }

  lemma StaticPlaces(path: Path)
    requires path <= [0, 0, 0, 0, 0]
    ensures NodeAt(STATIC_FILE, path) == Some(
      [STATIC_FILE, STATIC_CLASS, STATIC_CLASS.children[0], VAR_BLOCK, VAR_BLOCK.children[0], VAR_LIST][|path|])
  {
    if path != [] {
      StaticPlaces(path[..|path| - 1]);
      assert path == [0, 0, 0, 0, 0][..|path|];
      Step(STATIC_FILE, path, 0);
    }
  }

  lemma StaticOwner()
    ensures !InScopeOf(STATIC_FILE, [0, 0, 0, 0, 0], Hoisted, [1, 0])
    ensures Reaches(STATIC_FILE, [], [0, 0, 0, 0, 0])
  {
    var place: Path := [0, 0, 0, 0, 0];
    forall k: nat | k <= |place|
      ensures OwnerAt(STATIC_FILE, place[..k], Hoisted) <==> k == 0 || k == 2
      ensures NodeAt(STATIC_FILE, place[..k]).Some? && !IsFunctionLike(NodeAt(STATIC_FILE, place[..k]).value)
    {
      StaticPlaces(place[..k]);
    }
    assert OwnerAt(STATIC_FILE, place[..2], Hoisted);
  }

  // A `var` of a static block is local to it, but it hides the name from the whole file.
  lemma StaticBlock()
    ensures Lost(STATIC_FILE, RuntimeCall([1, 0], Some(SPECIFIER)))
  {
    var place: Path, at: Path := [0, 0, 0, 0, 0], [1, 0];
    NodeChild(STATIC_FILE, [], 1);
    NodeChild(STATIC_FILE, [1], 0);
    StaticOwner();
    StaticPlaces(place);
    ListHoists();
    forall other, mode | DeclaresFrom(STATIC_FILE, other, mode)
      ensures !Visible(STATIC_FILE, other, mode, at)
    {
      VarInStaticFile(other, mode);
    }
    assert at[..0] == [];
    assert Leaks(STATIC_FILE, place, Hoisted, at);
    LostCall(STATIC_FILE, RuntimeCall(at, Some(SPECIFIER)));
  }

  lemma NamespacePlaces()
    ensures NodeAt(NAMESPACE_FILE, [0, 0]) == Some(NAMESPACE.children[0])
    ensures NodeAt(NAMESPACE_FILE, [0, 0, 0]) == Some(OWN_REQUIRE)
    ensures NodeAt(NAMESPACE_FILE, [0, 0, 1]) == Some(EXPRESSION)
    ensures NodeAt(NAMESPACE_FILE, [0, 0, 1, 0]) == Some(REQUIRE_CALL)
  {
    NodeChild(NAMESPACE_FILE, [], 0);
    NodeChild(NAMESPACE_FILE, [0], 0);
    NodeChild(NAMESPACE_FILE, [0, 0], 0);
    NodeChild(NAMESPACE_FILE, [0, 0], 1);
    NodeChild(NAMESPACE_FILE, [0, 0, 1], 0);
  }

  lemma NamespaceLocal()
    ensures LocalAt(NAMESPACE_FILE, [0, 0, 1, 0])
  {
    var place: Path := [0, 0, 0];
    NamespacePlaces();
    assert place[..2] == [0, 0];
    assert NearestOwner(NAMESPACE_FILE, place, 2, InBlock);
    assert Visible(NAMESPACE_FILE, place, InBlock, [0, 0, 1, 0]);
  }

  // A function of a namespace is local to it, but its call of the name is recorded: a namespace body is no scope.
  lemma NamespaceFunction()
    ensures !ShouldRecord(NAMESPACE_FILE, RuntimeCall([0, 0, 1, 0], Some(SPECIFIER)))
    ensures RuntimeCall([0, 0, 1, 0], Some(SPECIFIER)) in Calls([], NAMESPACE_FILE, false)
  {
    NamespacePlaces();
    NamespaceLocal();
    NotShadowed();
    RecordedCall(NAMESPACE_FILE, RuntimeCall([0, 0, 1, 0], Some(SPECIFIER)));
    ShadowedMeans(NAMESPACE_FILE, [0, 0, 1, 0]);
  }

  lemma NoVarInNamespace(place: Path)
    ensures !DeclaresFrom(NAMESPACE_FILE, place, Hoisted)
  {
    if DeclaresFrom(NAMESPACE_FILE, place, Hoisted) {
      DeclaresInside(NAMESPACE_FILE, place, Hoisted);
      DeclaresInside(NAMESPACE, place[1..], Hoisted);
      var below := place[1..][1..];
      DeclaresInside(NAMESPACE.children[0], below, Hoisted);
      if below[0] == 1 {
        NothingInExpression(below[1..], Hoisted);
      } else {
        DeclaresInside(OWN_REQUIRE, below[1..], Hoisted);
        DeclaresInside(OWN_REQUIRE.children[0], below[1..][1..], Hoisted);
      }
    }
  }

  lemma NotShadowed()
    ensures !ShadowedAt(NAMESPACE_FILE, [0, 0, 1, 0])
  {
    var at: Path := [0, 0, 1, 0];
    NodeChild(NAMESPACE_FILE, [], 0);
    NodeChild(NAMESPACE_FILE, [0], 0);
    NodeChild(NAMESPACE_FILE, [0, 0], 1);
    NodeChild(NAMESPACE_FILE, [0, 0, 1], 0);
    assert at[..0] == [] && at[..1] == [0] && at[..2] == [0, 0] && at[..3] == [0, 0, 1] && at[..4] == at;
    HoistedPlaces(NAMESPACE_FILE, []);
    forall place
      ensures !DeclaresFrom(NAMESPACE_FILE, place, Hoisted)
    {
      NoVarInNamespace(place);
    }
    assert !ScopeDeclares(NAMESPACE_FILE);
  }
}
