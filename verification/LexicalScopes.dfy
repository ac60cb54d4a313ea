/**
 What a declaration of `require` means: where in the file it is visible, by the language's rules, and how far the scopes that
 packages/compiler/src/typescript-source.ts looks at (scopeDeclaresRequire, containsFunctionScopedRequire) agree with that.

 A declaration is a place in the tree together with the way it declares the name. Nothing here but `Feeds` and what it is
 built from follows the program; `Visible` is the language's rule.
 */
module LexicalScopes {
  import opened Wrappers
  import opened SyntaxScopes
  import opened RuntimeCalls

  datatype Mode =
    | Inner     // a parameter, the own name of a function or class expression, a catch variable
    | InBlock   // `let` and `const`, and the names of functions, classes, enums, namespaces and imports
    | Hoisted   // `var`

  ghost predicate Declares(node: Node, mode: Mode) {
    match mode
    case Inner => InnerDeclares(node)
    case InBlock => BlockDeclares(node)
    case Hoisted => HoistsHere(node)
  }

  predicate InnerDeclares(node: Node) {
    match node.kind
    case Function(form, ownName, parameters, _, _) => AnyBinds(parameters) || (form == Expressed && ownName == Some(REQUIRE))
    case Catch(variable) => variable.Some? && Binds(variable.value)
    case ClassExpression(ownName) => ownName == Some(REQUIRE)
    case _ => false
  }

  predicate BlockDeclares(node: Node) {
    match node.kind
    case VariableDeclarationList(blockScoped, names) => blockScoped && AnyBinds(names)
    case Function(form, ownName, _, _, _) => form == Declared && ownName == Some(REQUIRE)
    case NamedDeclaration(declared) => declared == Some(REQUIRE)
    case Namespace(declared) => declared == Some(REQUIRE)
    case ImportDeclaration(bound) => REQUIRE in bound
    case _ => false
  }

  // ----- Where a declaration is visible -----

  predicate OwnsStatements(node: Node) {
    match node.kind
    case SourceFile | Block | CaseBlock | For | ModuleBlock => true
    case _ => false
  }

  predicate OwnsVars(node: Node) {
    IsFunctionLike(node) || node.kind.SourceFile? || node.kind.ClassStaticBlock? || node.kind.ModuleBlock?
  }

  predicate Owns(node: Node, mode: Mode) {
    if mode == Hoisted then OwnsVars(node) else OwnsStatements(node)
  }

  predicate OwnerAt(root: Node, path: Path, mode: Mode) {
    NodeAt(root, path).Some? && Owns(NodeAt(root, path).value, mode)
  }

  // The first `k` steps of a place lead to the nearest owner above it.
  ghost predicate NearestOwner(root: Node, place: Path, k: nat, mode: Mode) {
    k < |place| && OwnerAt(root, place[..k], mode) && forall j :: k < j < |place| ==> !OwnerAt(root, place[..j], mode)
  }

  // A `var` is visible in the part of its function in which it stands, which is the body: default values of parameters
  // are evaluated in an environment that does not have it.
  function Home(root: Node, place: Path, k: nat, mode: Mode): Path
    requires k < |place|
  {
    if mode == Hoisted && NodeAt(root, place[..k]).Some? && IsFunctionLike(NodeAt(root, place[..k]).value)
    then place[..k + 1] else place[..k]
  }

  function Header(node: Node): nat {
    if node.kind.Function? then node.kind.header else 0
  }

  ghost predicate DeclaresFrom(root: Node, place: Path, mode: Mode) {
    NodeAt(root, place).Some? && Declares(NodeAt(root, place).value, mode)
  }

  ghost predicate InScopeOf(root: Node, place: Path, mode: Mode, at: Path) {
    exists k: nat :: NearestOwner(root, place, k, mode) && Home(root, place, k, mode) <= at
  }

  // The declaration at `place` is visible at `at`.
  ghost predicate Visible(root: Node, place: Path, mode: Mode, at: Path) {
    && DeclaresFrom(root, place, mode)
    && if mode == Inner then place < at && Header(NodeAt(root, place).value) <= at[|place|]
       else InScopeOf(root, place, mode, at)
  }

  // `require` is a local name at this place.
  ghost predicate LocalAt(root: Node, at: Path) {
    exists place, mode :: Visible(root, place, mode, at)
  }

  // ----- What the scopes of the program see -----

  // The place is a statement directly below `s`, or the declaration list of one.
  ghost predicate Listed(root: Node, s: Path, place: Path) {
    && s < place && NodeAt(root, place).Some?
    && if NodeAt(root, place).value.kind.VariableDeclarationList?
       then |place| == |s| + 2 && NodeAt(root, place[..|s| + 1]).Some? && NodeAt(root, place[..|s| + 1]).value.kind.VariableStatement?
       else |place| == |s| + 1
  }

  // The place is a statement of the scope at `s`, or the declaration list of one or of a loop.
  ghost predicate StatementOf(root: Node, s: Path, place: Path) {
    && s < place && NodeAt(root, s).Some? && NodeAt(root, place).Some?
    && match NodeAt(root, s).value.kind
       case SourceFile | Block => Listed(root, s, place)
       case CaseBlock =>
         && NodeAt(root, place[..|s| + 1]).Some? && NodeAt(root, place[..|s| + 1]).value.kind.CaseClause?
         && Listed(root, place[..|s| + 1], place)
       case For => |place| == |s| + 1 && NodeAt(root, place).value.kind.VariableDeclarationList?
       case _ => false
  }

  // No function lies strictly below the first `m` steps of the place.
  ghost predicate ClearBelow(root: Node, place: Path, m: nat) {
    forall k :: m < k <= |place| && NodeAt(root, place[..k]).Some? ==> !IsFunctionLike(NodeAt(root, place[..k]).value)
  }

  // The walk that looks for a `var` from the file or the function at `s` comes to the place.
  ghost predicate Reaches(root: Node, s: Path, place: Path) {
    && s <= place && NodeAt(root, s).Some?
    && match NodeAt(root, s).value.kind
       case SourceFile => ClearBelow(root, place, |s|)
       case Function(_, _, _, body, _) => |s| < |place| && body == Some(place[|s|]) && ClearBelow(root, place, |s| + 1)
       case _ => false
  }

  // The scope at `s` is said to declare `require` because of this declaration.
  ghost predicate Feeds(root: Node, s: Path, place: Path, mode: Mode) {
    && DeclaresFrom(root, place, mode)
    && NodeAt(root, s).Some? && IsBindingScope(NodeAt(root, s).value)
    && (
      || s == place
      || (mode != Inner && !NodeAt(root, place).value.kind.Namespace? && StatementOf(root, s, place))
      || (mode == Hoisted && Reaches(root, s, place))
    )
  }

  lemma {:induction false} NodeBelow(root: Node, p: Path, q: Path)
    ensures NodeAt(root, p + q) == (if NodeAt(root, p).Some? then NodeAt(NodeAt(root, p).value, q) else None)
    decreases |p|
  {
    if p == [] {
      assert p + q == q;
    } else {
      assert (p + q)[1..] == p[1..] + q;
      if p[0] < |root.children| {
        NodeBelow(root.children[p[0]], p[1..], q);
      }
    }
  }

  lemma NodeChild(root: Node, p: Path, i: nat)
    requires NodeAt(root, p).Some?
    ensures NodeAt(root, p + [i]) ==
      (if i < |NodeAt(root, p).value.children| then Some(NodeAt(root, p).value.children[i]) else None)
  {
    NodeBelow(root, p, [i]);
    assert [i][1..] == [];
  }

  // A statement declares `require` exactly if a declaration that is the statement, or its list, does.
  ghost predicate ListedDeclares(root: Node, s: Path, place: Path, mode: Mode) {
    && DeclaresFrom(root, place, mode) && mode != Inner && !NodeAt(root, place).value.kind.Namespace?
    && Listed(root, s, place)
  }

  lemma ListDeclaresBy(node: Node)
    ensures ListDeclares(node) <==> node.kind.VariableDeclarationList? && (Declares(node, InBlock) || Declares(node, Hoisted))
  {
  }

  lemma StatementSeen(root: Node, s: Path, i: nat)
    requires NodeAt(root, s).Some? && i < |NodeAt(root, s).value.children|
    requires StatementDeclares(NodeAt(root, s).value.children[i])
    ensures exists place, mode :: ListedDeclares(root, s, place, mode) && s + [i] <= place
  {
    NodeChild(root, s, i);
    var at := s + [i];
    var statement := NodeAt(root, at).value;
    if statement.kind.VariableStatement? {
      var j :| 0 <= j < |statement.children| && ListDeclares(statement.children[j]);
      NodeChild(root, at, j);
      var list := at + [j];
      assert list[..|s| + 1] == at;
      ListDeclaresBy(statement.children[j]);
      if Declares(statement.children[j], Hoisted) {
        assert ListedDeclares(root, s, list, Hoisted);
      } else {
        assert ListedDeclares(root, s, list, InBlock);
      }
    } else {
      assert ListedDeclares(root, s, at, InBlock);
    }
  }

  lemma ListedSeen(root: Node, s: Path, place: Path, mode: Mode)
    requires NodeAt(root, s).Some? && ListedDeclares(root, s, place, mode)
    ensures place[|s|] < |NodeAt(root, s).value.children| && StatementDeclares(NodeAt(root, s).value.children[place[|s|]])
  {
    var i := place[|s|];
    NodeChild(root, s, i);
    var at := s + [i];
    assert place[..|s| + 1] == at;
    if NodeAt(root, place).value.kind.VariableDeclarationList? {
      var j := place[|s| + 1];
      assert place == at + [j];
      NodeChild(root, at, j);
    } else {
      assert place == at;
    }
  }

  lemma SomeChildExact(root: Node, s: Path)
    requires NodeAt(root, s).Some?
    ensures SomeChildDeclares(NodeAt(root, s).value) <==> exists place, mode :: ListedDeclares(root, s, place, mode)
  {
    var node := NodeAt(root, s).value;
    if SomeChildDeclares(node) {
      var i :| 0 <= i < |node.children| && StatementDeclares(node.children[i]);
      StatementSeen(root, s, i);
    }
    if place, mode :| ListedDeclares(root, s, place, mode) {
      ListedSeen(root, s, place, mode);
    }
  }

  // What the walk below the first `m` steps of a place finds.
  lemma ReachedVar(root: Node, p: Path, rest: Path)
    requires NodeAt(root, p).Some?
    ensures VarAt(NodeAt(root, p).value, rest) <==> DeclaresFrom(root, p + rest, Hoisted) && ClearBelow(root, p + rest, |p|)
  {
    var node, place := NodeAt(root, p).value, p + rest;
    NodeBelow(root, p, rest);
    forall k | |p| < k <= |place|
      ensures NodeAt(root, place[..k]) == NodeAt(node, rest[..k - |p|])
    {
      NodeBelow(root, p, rest[..k - |p|]);
      assert place[..k] == p + rest[..k - |p|];
    }
    if VarAt(node, rest) {
      assert ClearBelow(root, place, |p|);
    }
    if DeclaresFrom(root, place, Hoisted) && ClearBelow(root, place, |p|) {
      forall k | 0 < k <= |rest| && NodeAt(node, rest[..k]).Some?
        ensures !IsFunctionLike(NodeAt(node, rest[..k]).value)
      {
        assert NodeAt(root, place[..k + |p|]) == NodeAt(node, rest[..k + |p| - |p|]);
      }
    }
  }

  lemma HoistedPlaces(root: Node, p: Path)
    requires NodeAt(root, p).Some?
    ensures Hoists(NodeAt(root, p).value) <==>
      exists place :: p <= place && DeclaresFrom(root, place, Hoisted) && ClearBelow(root, place, |p|)
  {
    var node := NodeAt(root, p).value;
    HoistsExact(node);
    if Hoists(node) {
      var rest :| VarAt(node, rest);
      ReachedVar(root, p, rest);
      assert p <= p + rest;
    }
    if place :| p <= place && DeclaresFrom(root, place, Hoisted) && ClearBelow(root, place, |p|) {
      assert place == p + place[|p|..];
      ReachedVar(root, p, place[|p|..]);
    }
  }

  // ----- A scope declares `require` exactly if a declaration feeds it -----

  ghost predicate Fed(root: Node, s: Path) {
    exists place, mode :: Feeds(root, s, place, mode)
  }

  lemma StatementFeeds(root: Node, s: Path, place: Path, mode: Mode)
    requires NodeAt(root, s).Some? && (NodeAt(root, s).value.kind.SourceFile? || NodeAt(root, s).value.kind.Block?)
    requires ListedDeclares(root, s, place, mode)
    ensures Feeds(root, s, place, mode)
  {
  }

  lemma FileExact(root: Node, s: Path)
    requires NodeAt(root, s).Some? && NodeAt(root, s).value.kind.SourceFile?
    ensures ScopeDeclares(NodeAt(root, s).value) <==> Fed(root, s)
  {
    SomeChildExact(root, s);
    HoistedPlaces(root, s);
    if place, mode :| ListedDeclares(root, s, place, mode) {
      StatementFeeds(root, s, place, mode);
    }
    if place :| s <= place && DeclaresFrom(root, place, Hoisted) && ClearBelow(root, place, |s|) {
      assert Feeds(root, s, place, Hoisted);
    }
    if place, mode :| Feeds(root, s, place, mode) {
      if mode != Inner && !NodeAt(root, place).value.kind.Namespace? && StatementOf(root, s, place) {
        assert ListedDeclares(root, s, place, mode);
      }
    }
  }

  lemma BlockExact(root: Node, s: Path)
    requires NodeAt(root, s).Some? && NodeAt(root, s).value.kind.Block?
    ensures ScopeDeclares(NodeAt(root, s).value) <==> Fed(root, s)
  {
    SomeChildExact(root, s);
    if place, mode :| ListedDeclares(root, s, place, mode) {
      StatementFeeds(root, s, place, mode);
    }
    if place, mode :| Feeds(root, s, place, mode) {
      assert ListedDeclares(root, s, place, mode);
    }
  }

  lemma CaseBlockExact(root: Node, s: Path)
    requires NodeAt(root, s).Some? && NodeAt(root, s).value.kind.CaseBlock?
    ensures ScopeDeclares(NodeAt(root, s).value) <==> Fed(root, s)
  {
    var scope := NodeAt(root, s).value;
    if ScopeDeclares(scope) {
      var i :| 0 <= i < |scope.children| && scope.children[i].kind.CaseClause? && SomeChildDeclares(scope.children[i]);
      NodeChild(root, s, i);
      SomeChildExact(root, s + [i]);
      var place, mode :| ListedDeclares(root, s + [i], place, mode);
      assert place[..|s| + 1] == s + [i];
      assert Feeds(root, s, place, mode);
    }
    if place, mode :| Feeds(root, s, place, mode) {
      var i := place[|s|];
      NodeChild(root, s, i);
      assert place[..|s| + 1] == s + [i];
      assert ListedDeclares(root, s + [i], place, mode);
      SomeChildExact(root, s + [i]);
    }
  }

  lemma ForExact(root: Node, s: Path)
    requires NodeAt(root, s).Some? && NodeAt(root, s).value.kind.For?
    ensures ScopeDeclares(NodeAt(root, s).value) <==> Fed(root, s)
  {
    var scope := NodeAt(root, s).value;
    if ScopeDeclares(scope) {
      var i :| 0 <= i < |scope.children| && ListDeclares(scope.children[i]);
      NodeChild(root, s, i);
      ListDeclaresBy(scope.children[i]);
      assert Feeds(root, s, s + [i], InBlock) || Feeds(root, s, s + [i], Hoisted);
    }
    if place, mode :| Feeds(root, s, place, mode) {
      NodeChild(root, s, place[|s|]);
      assert place == s + [place[|s|]];
      ListDeclaresBy(NodeAt(root, place).value);
    }
  }

  lemma FunctionExact(root: Node, s: Path)
    requires NodeAt(root, s).Some? && NodeAt(root, s).value.kind.Function?
    ensures ScopeDeclares(NodeAt(root, s).value) <==> Fed(root, s)
  {
    var scope := NodeAt(root, s).value;
    var body := scope.kind.body;
    if Declares(scope, Inner) {
      assert Feeds(root, s, s, Inner);
    }
    if Declares(scope, InBlock) {
      assert Feeds(root, s, s, InBlock);
    }
    if body.Some? && body.value < |scope.children| {
      NodeChild(root, s, body.value);
      HoistedPlaces(root, s + [body.value]);
      if place :| s + [body.value] <= place && DeclaresFrom(root, place, Hoisted) && ClearBelow(root, place, |s| + 1) {
        assert place[|s|] == (s + [body.value])[|s|];
        assert Feeds(root, s, place, Hoisted);
      }
    }
    if place, mode :| Feeds(root, s, place, mode) {
      if mode == Hoisted && Reaches(root, s, place) {
        StepWithin(root, s, place);
        assert s + [place[|s|]] <= place;
      }
    }
  }

  lemma ScopeExact(root: Node, s: Path)
    requires NodeAt(root, s).Some? && IsBindingScope(NodeAt(root, s).value)
    ensures ScopeDeclares(NodeAt(root, s).value) <==> Fed(root, s)
  {
    match NodeAt(root, s).value.kind
    case SourceFile => FileExact(root, s);
    case Block => BlockExact(root, s);
    case CaseBlock => CaseBlockExact(root, s);
    case For => ForExact(root, s);
    case Function(_, _, _, _, _) => FunctionExact(root, s);
    case Catch(_) =>
      if Declares(NodeAt(root, s).value, Inner) {
        assert Feeds(root, s, s, Inner);
      }
    case _ =>
  }

  // Some scope at or around `at` counts the declaration.
  ghost predicate Silences(root: Node, place: Path, mode: Mode, at: Path) {
    exists k :: 0 <= k <= |at| && Feeds(root, at[..k], place, mode)
  }

  lemma ShadowedExact(root: Node, at: Path)
    ensures ShadowedAt(root, at) <==> exists place, mode :: Silences(root, place, mode, at)
  {
    if ShadowedAt(root, at) {
      var k :| 0 <= k <= |at| && DeclaresAt(root, at[..k]);
      ScopeExact(root, at[..k]);
      var place, mode :| Feeds(root, at[..k], place, mode);
      assert Silences(root, place, mode, at);
    }
    if place, mode :| Silences(root, place, mode, at) {
      var k :| 0 <= k <= |at| && Feeds(root, at[..k], place, mode);
      ScopeExact(root, at[..k]);
      assert DeclaresAt(root, at[..k]);
    }
  }

  // ----- Counted and visible: where the two differ -----

  // No scope counts the declaration, although it is visible at `at`.
  ghost predicate Overlooked(root: Node, place: Path, mode: Mode, at: Path)
    requires NodeAt(root, place).Some?
  {
    var node := NodeAt(root, place).value;
    match mode
    case Inner => node.kind.ClassExpression?
    case InBlock => node.kind.Namespace? || (!AmongStatements(root, place, at) && !(node.kind.Function? && place <= at))
    case Hoisted => !AmongStatements(root, place, at) && !Reached(root, place)
  }

  ghost predicate AmongStatements(root: Node, place: Path, at: Path) {
    exists k :: 0 <= k <= |at| && StatementOf(root, at[..k], place)
  }

  ghost predicate Reached(root: Node, place: Path) {
    exists k :: 0 <= k <= |place| && Reaches(root, place[..k], place)
  }

  // A scope at or around `at` counts the declaration, although it is not visible there: decorators and computed names
  // of the function, or a `var` that the walk from a scope comes to without being in that part of it.
  ghost predicate Leaks(root: Node, place: Path, mode: Mode, at: Path) {
    && DeclaresFrom(root, place, mode)
    && match mode
       case Inner => place < at && at[|place|] < Header(NodeAt(root, place).value)
       case InBlock => false
       case Hoisted => ReachedFrom(root, place, at) && !InScopeOf(root, place, Hoisted, at)
  }

  ghost predicate ReachedFrom(root: Node, place: Path, at: Path) {
    exists k :: 0 <= k <= |at| && Reaches(root, at[..k], place)
  }

  ghost predicate CallAt(root: Node, at: Path) {
    NodeAt(root, at).Some? && NodeAt(root, at).value.kind.Call?
  }

  lemma {:induction false} OwnerFound(root: Node, place: Path, from: nat, k: nat, mode: Mode)
    requires from <= k < |place| && OwnerAt(root, place[..from], mode)
    requires forall j :: k < j < |place| ==> !OwnerAt(root, place[..j], mode)
    ensures exists o: nat :: from <= o <= k && NearestOwner(root, place, o, mode)
    decreases k
  {
    if OwnerAt(root, place[..k], mode) {
      assert NearestOwner(root, place, k, mode);
    } else {
      OwnerFound(root, place, from, k - 1, mode);
    }
  }

  lemma OwnerUnique(root: Node, place: Path, k: nat, o: nat, mode: Mode)
    requires NearestOwner(root, place, k, mode) && NearestOwner(root, place, o, mode)
    ensures k == o
  {
  }

  lemma InnerExact(root: Node, place: Path, at: Path)
    requires CallAt(root, at) && DeclaresFrom(root, place, Inner)
    ensures Silences(root, place, Inner, at) <==>
      (Visible(root, place, Inner, at) && !Overlooked(root, place, Inner, at)) || Leaks(root, place, Inner, at)
  {
    assert place != at && at[..|at|] == at;
    if k :| 0 <= k <= |at| && Feeds(root, at[..k], place, Inner) {
      assert at[..k] == place;
    }
    if place <= at {
      assert at[..|place|] == place;
      assert Feeds(root, at[..|place|], place, Inner) <==> !NodeAt(root, place).value.kind.ClassExpression?;
    }
  }

  // The scope among whose statements a declaration is owns it, unless it is a `var`; in any case it lies in the home of it.
  lemma StatementOwner(root: Node, s: Path, place: Path)
    requires StatementOf(root, s, place) && OwnerAt(root, s, InBlock)
    requires !NodeAt(root, place).value.kind.Namespace?
    ensures NearestOwner(root, place, |s|, InBlock)
    ensures forall j :: |s| < j < |place| ==> !OwnerAt(root, place[..j], Hoisted)
  {
    assert place[..|s|] == s;
    var between := place[..|s| + 1];
    if NodeAt(root, s).value.kind.CaseBlock? {
      assert place[..|between| + 1][..|between|] == between;
    }
  }

  lemma StatementVisible(root: Node, s: Path, place: Path, at: Path)
    requires s <= at && DeclaresFrom(root, place, InBlock) && StatementOf(root, s, place)
    requires !NodeAt(root, place).value.kind.Namespace?
    ensures Visible(root, place, InBlock, at)
  {
    StatementOwner(root, s, place);
    assert Home(root, place, |s|, InBlock) == s;
  }

  lemma OwnNameVisible(root: Node, place: Path, at: Path)
    requires root.kind.SourceFile? && place <= at && DeclaresFrom(root, place, InBlock)
    ensures Visible(root, place, InBlock, at)
  {
    assert place[..0] == [];
    OwnerFound(root, place, 0, |place| - 1, InBlock);
    var o: nat :| o < |place| && NearestOwner(root, place, o, InBlock);
    assert Home(root, place, o, InBlock) <= at;
  }

  lemma InBlockExact(root: Node, place: Path, at: Path)
    requires root.kind.SourceFile? && CallAt(root, at) && DeclaresFrom(root, place, InBlock)
    ensures Silences(root, place, InBlock, at) <==> Visible(root, place, InBlock, at) && !Overlooked(root, place, InBlock, at)
  {
    var node := NodeAt(root, place).value;
    if k :| 0 <= k <= |at| && StatementOf(root, at[..k], place) && !node.kind.Namespace? {
      StatementVisible(root, at[..k], place, at);
      assert Feeds(root, at[..k], place, InBlock);
    }
    if node.kind.Function? && place <= at {
      OwnNameVisible(root, place, at);
      assert at[..|place|] == place;
      assert Feeds(root, at[..|place|], place, InBlock);
    }
    if k :| 0 <= k <= |at| && Feeds(root, at[..k], place, InBlock) {
      assert at[..k] == place || StatementOf(root, at[..k], place);
    }
  }

  lemma ReachingOwns(root: Node, s: Path, place: Path, at: Path)
    requires Reaches(root, s, place) && DeclaresFrom(root, place, Hoisted) && InScopeOf(root, place, Hoisted, at)
    ensures s <= at
  {
    var o: nat :| NearestOwner(root, place, o, Hoisted) && Home(root, place, o, Hoisted) <= at;
    assert place[..|s|] == s;
    assert s != place && place[..|place|] == place;
    assert OwnerAt(root, place[..|s|], Hoisted);
    assert |s| <= o;
    assert s <= place[..o] && place[..o] <= at;
  }

  lemma StatementInScope(root: Node, s: Path, place: Path, at: Path)
    requires root.kind.SourceFile? && s <= at && DeclaresFrom(root, place, Hoisted)
    requires StatementOf(root, s, place)
    ensures InScopeOf(root, place, Hoisted, at)
  {
    assert place[..0] == [] && place[..|s|] == s;
    StatementOwner(root, s, place);
    OwnerFound(root, place, 0, |s|, Hoisted);
    var o: nat :| o <= |s| && NearestOwner(root, place, o, Hoisted);
    assert Home(root, place, o, Hoisted) <= at;
  }

  lemma HoistedExact(root: Node, place: Path, at: Path)
    requires root.kind.SourceFile? && DeclaresFrom(root, place, Hoisted)
    ensures Silences(root, place, Hoisted, at) <==>
      (Visible(root, place, Hoisted, at) && !Overlooked(root, place, Hoisted, at)) || Leaks(root, place, Hoisted, at)
  {
    if k :| 0 <= k <= |at| && StatementOf(root, at[..k], place) {
      StatementInScope(root, at[..k], place, at);
      assert Feeds(root, at[..k], place, Hoisted);
    }
    if k :| 0 <= k <= |at| && Reaches(root, at[..k], place) {
      assert Feeds(root, at[..k], place, Hoisted);
      assert place[..k] == at[..k];
      assert Reached(root, place);
    }
    if k :| 0 <= k <= |place| && Reaches(root, place[..k], place) && InScopeOf(root, place, Hoisted, at) {
      ReachingOwns(root, place[..k], place, at);
      assert at[..k] == place[..k];
      assert Feeds(root, at[..k], place, Hoisted);
    }
    if k :| 0 <= k <= |at| && Feeds(root, at[..k], place, Hoisted) {
      assert StatementOf(root, at[..k], place) || Reaches(root, at[..k], place);
    }
  }

  lemma SilencesExact(root: Node, place: Path, mode: Mode, at: Path)
    requires root.kind.SourceFile? && CallAt(root, at) && DeclaresFrom(root, place, mode)
    ensures Silences(root, place, mode, at) <==>
      (Visible(root, place, mode, at) && !Overlooked(root, place, mode, at)) || Leaks(root, place, mode, at)
  {
    match mode
    case Inner => InnerExact(root, place, at);
    case InBlock => InBlockExact(root, place, at);
    case Hoisted => HoistedExact(root, place, at);
  }

  // ----- Recorded calls -----

  ghost predicate CountedLocal(root: Node, at: Path) {
    exists place, mode :: Visible(root, place, mode, at) && !Overlooked(root, place, mode, at)
  }

  ghost predicate Leaked(root: Node, at: Path) {
    exists place, mode :: Leaks(root, place, mode, at)
  }

  // At a call, `require` counts as shadowed exactly if a declaration that is visible there is counted, or one leaks to it.
  lemma ShadowedMeans(root: Node, at: Path)
    requires root.kind.SourceFile? && CallAt(root, at)
    ensures ShadowedAt(root, at) <==> CountedLocal(root, at) || Leaked(root, at)
  {
    ShadowedExact(root, at);
    if place, mode :| Silences(root, place, mode, at) {
      SilencesExact(root, place, mode, at);
    }
    if place, mode :| Visible(root, place, mode, at) && !Overlooked(root, place, mode, at) {
      SilencesExact(root, place, mode, at);
    }
    if place, mode :| Leaks(root, place, mode, at) {
      SilencesExact(root, place, mode, at);
    }
  }

  // What lexical scoping asks for: `import()`, and `require` calls where the name is not local.
  ghost predicate ShouldRecord(root: Node, call: RuntimeCall) {
    && CallAt(root, call.path) && NodeAt(root, call.path).value.kind.argument == call.argument
    && var callee := NodeAt(root, call.path).value.kind.callee;
       callee == ImportKeyword || (CallsRequire(callee) && !LocalAt(root, call.path))
  }

  // A call of `require` or `require.resolve`.
  ghost predicate RequireCallAt(root: Node, at: Path) {
    CallAt(root, at) && CallsRequire(NodeAt(root, at).value.kind.callee)
  }

  // The name is not local, but a declaration leaks to the place.
  ghost predicate WronglyShadowed(root: Node, at: Path) {
    !LocalAt(root, at) && Leaked(root, at)
  }

  // The name is local, but every declaration that makes it so is overlooked, and none leaks to the place.
  ghost predicate WronglyFree(root: Node, at: Path) {
    LocalAt(root, at) && !CountedLocal(root, at) && !Leaked(root, at)
  }

  lemma RecordedCall(root: Node, call: RuntimeCall)
    requires root.kind.SourceFile?
    ensures call in Calls([], root, false) <==>
      && CallAt(root, call.path) && NodeAt(root, call.path).value.kind.argument == call.argument
      && var callee := NodeAt(root, call.path).value.kind.callee;
         callee == ImportKeyword || (CallsRequire(callee) && !CountedLocal(root, call.path) && !Leaked(root, call.path))
  {
    CallsExact([], root, false, call);
    assert call.path[0..] == call.path;
    if CallAt(root, call.path) {
      ShadowedMeans(root, call.path);
    }
  }

  // The recorded calls are those that lexical scoping asks for exactly if no `require` call is wrongly shadowed or wrongly
  // free.
  lemma RecordedExactly(root: Node)
    requires root.kind.SourceFile?
    ensures (forall call :: call in Calls([], root, false) <==> ShouldRecord(root, call)) <==>
      (forall at :: RequireCallAt(root, at) ==> !WronglyShadowed(root, at) && !WronglyFree(root, at))
  {
    forall call: RuntimeCall
      ensures (call in Calls([], root, false) <==> ShouldRecord(root, call)) <==>
        (RequireCallAt(root, call.path) && NodeAt(root, call.path).value.kind.argument == call.argument ==>
          !WronglyShadowed(root, call.path) && !WronglyFree(root, call.path))
    {
      RecordedCall(root, call);
    }
    if forall call :: call in Calls([], root, false) <==> ShouldRecord(root, call) {
      forall at | RequireCallAt(root, at)
        ensures !WronglyShadowed(root, at) && !WronglyFree(root, at)
      {
        var call := RuntimeCall(at, NodeAt(root, at).value.kind.argument);
        assert call in Calls([], root, false) <==> ShouldRecord(root, call);
      }
    }
  }

  // ----- What leaks and what is overlooked -----

  // A `var` leaks from a scope only to default values and the like outside its body, or past an owner that stands between:
  // a function that is itself the body, or a static block, a namespace or another file, where the walk does not stop.
  lemma LeakReason(root: Node, s: Path, place: Path, at: Path)
    requires DeclaresFrom(root, place, Hoisted) && Reaches(root, s, place) && s <= at
    requires !InScopeOf(root, place, Hoisted, at)
    ensures
      || (NodeAt(root, s).value.kind.Function? && !(place[..|s| + 1] <= at))
      || exists o: nat :: |s| < o < |place| && NearestOwner(root, place, o, Hoisted) &&
           (IsFunctionLike(NodeAt(root, place[..o]).value) ==> o == |s| + 1 && NodeAt(root, s).value.kind.Function?)
  {
    assert s != place && place[..|s|] == s && place[..|place|] == place;
    OwnerFound(root, place, |s|, |place| - 1, Hoisted);
    var o: nat :| |s| <= o < |place| && NearestOwner(root, place, o, Hoisted);
    if o == |s| {
      assert !(Home(root, place, o, Hoisted) <= at);
    }
  }

  ghost predicate OwnVar(root: Node, s: Path, place: Path) {
    && DeclaresFrom(root, place, Hoisted) && NearestOwner(root, place, |s|, Hoisted)
    && Reaches(root, s, place)
  }

  // A `var` in a static block or a namespace that the walk from `s` goes through.
  ghost predicate PastOwner(root: Node, s: Path, place: Path) {
    && DeclaresFrom(root, place, Hoisted) && Reaches(root, s, place)
    && exists o: nat :: |s| < o && NearestOwner(root, place, o, Hoisted) && !IsFunctionLike(NodeAt(root, place[..o]).value)
  }

  predicate FunctionAsBody(scope: Node) {
    && scope.kind.Function? && scope.kind.body.Some? && scope.kind.body.value < |scope.children|
    && IsFunctionLike(scope.children[scope.kind.body.value])
    && Hoists(scope.children[scope.kind.body.value])
  }

  // A function counts as declaring `require` exactly if it does so itself, by a parameter, its name or a `var` of its own
  // body, or its body is a function that does, or a static block or namespace in its body does.
  lemma FunctionScope(root: Node, s: Path)
    requires NodeAt(root, s).Some? && NodeAt(root, s).value.kind.Function?
    ensures ScopeDeclares(NodeAt(root, s).value) <==>
      || InnerDeclares(NodeAt(root, s).value) || BlockDeclares(NodeAt(root, s).value)
      || (exists place :: OwnVar(root, s, place))
      || FunctionAsBody(NodeAt(root, s).value)
      || (exists place :: PastOwner(root, s, place))
  {
    FunctionExact(root, s);
    if place, mode :| Feeds(root, s, place, mode) {
      if place != s && Reaches(root, s, place) {
        ReachingOwner(root, s, place);
      }
    }
    if place :| OwnVar(root, s, place) {
      assert Feeds(root, s, place, Hoisted);
    }
    if place :| PastOwner(root, s, place) {
      assert Feeds(root, s, place, Hoisted);
    }
  }

  lemma ReachingOwner(root: Node, s: Path, place: Path)
    requires NodeAt(root, s).Some? && NodeAt(root, s).value.kind.Function?
    requires DeclaresFrom(root, place, Hoisted) && Reaches(root, s, place)
    ensures OwnVar(root, s, place) || FunctionAsBody(NodeAt(root, s).value) || PastOwner(root, s, place)
  {
    assert place[..|s|] == s;
    OwnerFound(root, place, |s|, |place| - 1, Hoisted);
    var o: nat :| |s| <= o < |place| && NearestOwner(root, place, o, Hoisted);
    if o > |s| && IsFunctionLike(NodeAt(root, place[..o]).value) {
      assert o == |s| + 1;
      StepWithin(root, s, place);
      NodeChild(root, s, place[|s|]);
      assert place[..o] == s + [place[|s|]];
      HoistedPlaces(root, s + [place[|s|]]);
    }
  }

  // Below a file, a block or a case clause, a statement declares `require` exactly if a declaration that is the statement or
  // its list, and not a namespace, is visible throughout the statements.
  lemma StatementMeans(root: Node, s: Path, i: nat)
    requires root.kind.SourceFile? && NodeAt(root, s).Some? && i < |NodeAt(root, s).value.children|
    requires var kind := NodeAt(root, s).value.kind; kind.SourceFile? || kind.Block? || kind.CaseClause?
    ensures StatementDeclares(NodeAt(root, s).value.children[i]) <==>
      exists place, mode :: VisibleStatement(root, s, place, mode) && s + [i] <= place
  {
    if StatementDeclares(NodeAt(root, s).value.children[i]) {
      StatementSeen(root, s, i);
      var place, mode :| ListedDeclares(root, s, place, mode) && s + [i] <= place;
      ListedVisible(root, s, place, mode);
    }
    if place, mode :| VisibleStatement(root, s, place, mode) && s + [i] <= place {
      assert mode != Inner;
      assert place[|s|] == (s + [i])[|s|];
      ListedSeen(root, s, place, mode);
    }
  }

  ghost predicate VisibleStatement(root: Node, s: Path, place: Path, mode: Mode) {
    Listed(root, s, place) && !NodeAt(root, place).value.kind.Namespace? && Visible(root, place, mode, s)
  }

  lemma ListedVisible(root: Node, s: Path, place: Path, mode: Mode)
    requires root.kind.SourceFile? && NodeAt(root, s).Some? && !IsFunctionLike(NodeAt(root, s).value)
    requires ListedDeclares(root, s, place, mode)
    ensures VisibleStatement(root, s, place, mode)
  {
    assert place[..0] == [] && place[..|s|] == s;
    OwnerFound(root, place, 0, |s|, mode);
    var o: nat :| o <= |s| && NearestOwner(root, place, o, mode);
    assert Home(root, place, o, mode) <= s;
  }
}
