/**
 Finding repeated object keys with an explicit stack (packages/contract/src/jsonc.ts, findDuplicateKeyIssues and
 visitNode), and why a document without them loses no property when it is evaluated.
 */
module JsoncDuplicates {
  import opened Wrappers
  import opened Texts
  import opened Sequences
  import opened JsoncTree

  // The key of property `index` of the object at `path` was used before in that object.
  datatype Issue = Issue(path: Path, index: nat)

  predicate RepeatsKey(properties: seq<Property>, i: nat)
    requires i < |properties|
  {
    properties[i].key.Some? && exists j :: 0 <= j < i && properties[j].key == properties[i].key
  }

  function OwnIssues(path: Path, properties: seq<Property>, k: nat): seq<Issue>
    requires k <= |properties|
  {
    if k == 0 then []
    else OwnIssues(path, properties, k - 1) + (if RepeatsKey(properties, k - 1) then [Issue(path, k - 1)] else [])
  }

  function NodeIssues(path: Path, node: Node): seq<Issue> {
    if node.ObjectNode? then OwnIssues(path, node.properties, |node.properties|) else []
  }

  // Every repeated key below a node, in document order: the node itself, then its children from number `from`.
  function Issues(path: Path, node: Node): seq<Issue>
    decreases Size(node), Width(node) + 1
  {
    NodeIssues(path, node) + ChildIssues(path, node, 0)
  }

  function ChildIssues(path: Path, node: Node, from: nat): seq<Issue>
    requires from <= Width(node)
    decreases Size(node), Width(node) - from
  {
    if from == Width(node) then []
    else
      match Child(node, from)
      case NoValue => ChildIssues(path, node, from + 1)
      case Value(child) =>
        ChildSmaller(node, from);
        Issues(path + [from], child) + ChildIssues(path, node, from + 1)
  }

  lemma ChildSmaller(node: Node, i: nat)
    requires i < Width(node)
    ensures SlotSize(Child(node, i)) < Size(node)
  {
    ChildWithin(node, 0, i);
  }

  lemma {:induction false} ChildWithin(node: Node, from: nat, i: nat)
    requires from <= i < Width(node)
    ensures SlotSize(Child(node, i)) <= ChildrenSize(node, from)
    decreases i - from
  {
    ChildrenSizeStep(node, from);
    if from < i {
      ChildWithin(node, from + 1, i);
    }
  }

  // ----- The loop -----

  datatype Frame = Frame(path: Path, node: Node)

  function StackSize(stack: seq<Frame>): nat {
    if stack == [] then 0 else StackSize(stack[..|stack| - 1]) + Size(stack[|stack| - 1].node)
  }

  // What is still to be reported, the top of the stack first.
  function Pending(stack: seq<Frame>): seq<Issue> {
    if stack == [] then []
    else
      var top := stack[|stack| - 1];
      Issues(top.path, top.node) + Pending(stack[..|stack| - 1])
  }

  method VisitProperties(path: Path, properties: seq<Property>) returns (issues: seq<Issue>)
    ensures issues == OwnIssues(path, properties, |properties|)
  {
    issues := [];
    var seen: set<Text> := {};
    for i := 0 to |properties|
      invariant issues == OwnIssues(path, properties, i)
      invariant forall t :: t in seen <==> exists j :: 0 <= j < i && properties[j].key == Some(t)
    {
      if properties[i].key.Some? {
        if properties[i].key.value in seen {
          issues := issues + [Issue(path, i)];
        } else {
          seen := seen + {properties[i].key.value};
        }
      }
    }
  }

  method PushChildren(stack: seq<Frame>, path: Path, node: Node) returns (pushed: seq<Frame>)
    ensures Pending(pushed) == ChildIssues(path, node, 0) + Pending(stack)
    ensures StackSize(pushed) == StackSize(stack) + ChildrenSize(node, 0)
  {
    pushed := stack;
    for i := Width(node) downto 0
      invariant Pending(pushed) == ChildIssues(path, node, i) + Pending(stack)
      invariant StackSize(pushed) == StackSize(stack) + ChildrenSize(node, i)
    {
      ChildrenSizeStep(node, i);
      var child := Child(node, i);
      if child.Value? {
        ghost var before := pushed;
        pushed := pushed + [Frame(path + [i], child.node)];
        assert pushed[..|pushed| - 1] == before;
        ConcatAssociative(Issues(path + [i], child.node), ChildIssues(path, node, i + 1), Pending(stack));
      }
    }
  }

  method FindDuplicateKeyIssues(root: Node) returns (issues: seq<Issue>)
    ensures issues == Issues([], root)
  {
    issues := [];
    var stack := [Frame([], root)];
    while stack != []
      invariant issues + Pending(stack) == Issues([], root)
      decreases StackSize(stack)
    {
      var frame, rest := stack[|stack| - 1], stack[..|stack| - 1];
      ghost var before := issues;
      if frame.node.ObjectNode? {
        var own := VisitProperties(frame.path, frame.node.properties);
        issues := issues + own;
      }
      stack := PushChildren(rest, frame.path, frame.node);
      ConcatAssociative(NodeIssues(frame.path, frame.node), ChildIssues(frame.path, frame.node, 0), Pending(rest));
      ConcatAssociative(before, NodeIssues(frame.path, frame.node), Pending(stack));
      assert before + [] == before;
    }
  }

  // ----- What is reported -----

  // The property named by an issue repeats an earlier key of its object.
  ghost predicate Repeated(root: Node, path: Path, index: nat) {
    && NodeAt(root, path).Value? && NodeAt(root, path).node.ObjectNode?
    && index < |NodeAt(root, path).node.properties| && RepeatsKey(NodeAt(root, path).node.properties, index)
  }

  lemma {:induction false} OwnIssuesExact(path: Path, properties: seq<Property>, k: nat, issue: Issue)
    requires k <= |properties|
    ensures issue in OwnIssues(path, properties, k) <==> issue.path == path && issue.index < k && RepeatsKey(properties, issue.index)
  {
    if k > 0 {
      OwnIssuesExact(path, properties, k - 1, issue);
    }
  }

  // An issue is reported exactly where some object, however deep, repeats a key.
  lemma {:induction false} IssuesExact(at: Path, node: Node, issue: Issue)
    ensures issue in Issues(at, node) <==>
      at <= issue.path && Repeated(node, issue.path[|at|..], issue.index)
    decreases Size(node), Width(node) + 1
  {
    if node.ObjectNode? {
      OwnIssuesExact(at, node.properties, |node.properties|, issue);
    }
    ChildIssuesExact(at, node, 0, issue);
    if at <= issue.path && |issue.path| > |at| {
      assert issue.path[|at|..][1..] == issue.path[|at| + 1..];
    }
    if issue.path == at {
      assert issue.path[|at|..] == [];
    }
  }

  lemma {:induction false} ChildIssuesExact(at: Path, node: Node, from: nat, issue: Issue)
    requires from <= Width(node)
    ensures issue in ChildIssues(at, node, from) <==> Inside(at, node, from, issue)
    decreases Size(node), Width(node) - from
  {
    if from < Width(node) {
      ChildIssuesExact(at, node, from + 1, issue);
      if Child(node, from).Value? {
        ChildSmaller(node, from);
        IssuesExact(at + [from], Child(node, from).node, issue);
      }
    }
  }

  ghost predicate Inside(at: Path, node: Node, from: nat, issue: Issue) {
    && at <= issue.path && |at| < |issue.path| && from <= issue.path[|at|] < Width(node)
    && Child(node, issue.path[|at|]).Value?
    && Repeated(Child(node, issue.path[|at|]).node, issue.path[|at| + 1..], issue.index)
  }

  // ----- Nothing is lost -----

  ghost predicate NoObjectRepeats(root: Node) {
    forall path, i :: !Repeated(root, path, i)
  }

  lemma ReportedExactly(root: Node)
    ensures Issues([], root) == [] <==> NoObjectRepeats(root)
  {
    if Issues([], root) == [] {
      forall path: Path, i: nat
        ensures !Repeated(root, path, i)
      {
        IssuesExact([], root, Issue(path, i));
        assert path[0..] == path;
      }
    } else {
      var issue := Issues([], root)[0];
      IssuesExact([], root, issue);
      assert issue.path[0..] == issue.path;
    }
  }

  // The number of properties that have a key and a value.
  function Complete(properties: seq<Property>, k: nat): nat
    requires k <= |properties|
  {
    if k == 0 then 0 else Complete(properties, k - 1) + (if properties[k - 1].key.Some? && properties[k - 1].slot.Value? then 1 else 0)
  }

  lemma {:induction false} EntriesCounted(properties: seq<Property>, k: nat)
    requires k <= |properties|
    requires forall i :: 0 <= i < k ==> !RepeatsKey(properties, i)
    ensures |DenoteProperties(properties, k)| == Complete(properties, k)
    ensures forall t :: t in DenoteProperties(properties, k) ==> exists j :: 0 <= j < k && properties[j].key == Some(t)
  {
    if k > 0 {
      EntriesCounted(properties, k - 1);
      assert !RepeatsKey(properties, k - 1);
    }
  }

  // No entry of any object is overwritten while the document is evaluated.
  lemma NothingOverwritten(root: Node, path: Path, i: nat)
    requires Issues([], root) == []
    requires NodeAt(root, path).Value? && NodeAt(root, path).node.ObjectNode?
    ensures
      var properties := NodeAt(root, path).node.properties;
      |Denote(NodeAt(root, path).node).entries| == Complete(properties, |properties|)
    ensures
      var properties := NodeAt(root, path).node.properties;
      i < |properties| && properties[i].key.Some? && properties[i].slot.Value? ==>
        && properties[i].key.value in Denote(NodeAt(root, path).node).entries
        && Denote(NodeAt(root, path).node).entries[properties[i].key.value] == Denote(properties[i].slot.node)
  {
    ReportedExactly(root);
    var properties := NodeAt(root, path).node.properties;
    forall j | 0 <= j < |properties|
      ensures !RepeatsKey(properties, j)
    {
      assert !Repeated(root, path, j);
    }
    EntriesCounted(properties, |properties|);
    if i < |properties| && properties[i].key.Some? && properties[i].slot.Value? {
      EntryKept(properties, |properties|, i);
    }
  }

  lemma {:induction false} EntryKept(properties: seq<Property>, k: nat, i: nat)
    requires i < k <= |properties|
    requires forall j :: 0 <= j < k ==> !RepeatsKey(properties, j)
    requires properties[i].key.Some? && properties[i].slot.Value?
    ensures properties[i].key.value in DenoteProperties(properties, k)
    ensures DenoteProperties(properties, k)[properties[i].key.value] == Denote(properties[i].slot.node)
  {
    if i < k - 1 {
      EntryKept(properties, k - 1, i);
      assert !RepeatsKey(properties, k - 1);
    }
  }
}
