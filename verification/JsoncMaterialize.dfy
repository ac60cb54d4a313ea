/**
 Evaluating a node tree with an explicit stack on which a composite node is met twice: first to push its
 children, then to assemble their values (packages/contract/src/jsonc.ts, materializeJsonValue).
 */
module JsoncMaterialize {
  import opened Wrappers
  import opened Texts
  import opened JsoncTree

  datatype Frame = Frame(path: Path, node: Node, visited: bool)

  // The values found so far, by the place of their node.
  type Values = map<Path, Json>

  function StackSize(stack: seq<Frame>): nat {
    if stack == [] then 0
    else StackSize(stack[..|stack| - 1]) + FrameSize(stack[|stack| - 1])
  }

  function FrameSize(frame: Frame): nat {
    if frame.visited then 1 else Size(frame.node)
  }

  // What the first visit pushes: the children from the last down to number `from`.
  function ChildFrames(path: Path, node: Node, from: nat): seq<Frame>
    requires from <= Width(node)
    decreases Width(node) - from
  {
    if from == Width(node) then []
    else
      var later := ChildFrames(path, node, from + 1);
      match Child(node, from)
      case NoValue => later
      case Value(child) => later + [Frame(path + [from], child, false)]
  }

  lemma {:induction false} PushedSize(stack: seq<Frame>, path: Path, node: Node, from: nat)
    requires from <= Width(node)
    ensures StackSize(stack + ChildFrames(path, node, from)) == StackSize(stack) + ChildrenSize(node, from)
    decreases Width(node) - from
  {
    if from == Width(node) {
      assert stack + [] == stack;
    } else {
      PushedSize(stack, path, node, from + 1);
      ChildrenSizeStep(node, from);
      var later := ChildFrames(path, node, from + 1);
      if Child(node, from).Value? {
        var frame := Frame(path + [from], Child(node, from).node, false);
        assert stack + (later + [frame]) == (stack + later) + [frame];
        assert ((stack + later) + [frame])[..|stack + later|] == stack + later;
        assert ChildFrames(path, node, from) == later + [frame];
      } else {
        assert ChildFrames(path, node, from) == later;
      }
    }
  }

  lemma {:induction false} ChildFramesAre(path: Path, node: Node, from: nat, f: Frame)
    requires from <= Width(node) && f in ChildFrames(path, node, from)
    ensures !f.visited
    ensures exists i :: from <= i < Width(node) && Child(node, i) == Value(f.node) && f.path == path + [i]
    decreases Width(node) - from
  {
    if f in ChildFrames(path, node, from + 1) {
      ChildFramesAre(path, node, from + 1, f);
    }
  }

  lemma {:induction false} ChildFramesHold(path: Path, node: Node, from: nat, i: nat)
    requires from <= i < Width(node) && Child(node, i).Value?
    ensures Frame(path + [i], Child(node, i).node, false) in ChildFrames(path, node, from)
    decreases i - from
  {
    if from < i {
      ChildFramesHold(path, node, from + 1, i);
    }
  }

  // ----- The invariant -----

  // The frames are nodes of the tree, and the values found so far are right.
  ghost predicate Sound(root: Node, stack: seq<Frame>, values: Values) {
    && (forall k :: 0 <= k < |stack| ==> NodeAt(root, stack[k].path) == Value(stack[k].node))
    && (forall p :: p in values ==> Right(root, p, values[p]))
  }

  ghost predicate Right(root: Node, path: Path, value: Json) {
    NodeAt(root, path).Value? && value == Denote(NodeAt(root, path).node)
  }

  // The value of a place is known, or will be once the stack is back at height k.
  ghost predicate Promised(stack: seq<Frame>, values: Values, path: Path, k: nat) {
    path in values || exists j :: k <= j < |stack| && stack[j].path == path
  }

  // Every child of a node on its second visit is ready before the node is.
  ghost predicate ChildrenPromised(stack: seq<Frame>, values: Values) {
    forall k, i ::
      0 <= k < |stack| && stack[k].visited && Present(stack[k].node, i) ==> Promised(stack, values, stack[k].path + [i], k + 1)
  }

  ghost predicate Present(node: Node, i: int) {
    0 <= i < Width(node) && Child(node, i).Value?
  }

  ghost predicate Invariant(root: Node, stack: seq<Frame>, values: Values) {
    && Sound(root, stack, values) && ChildrenPromised(stack, values) && Promised(stack, values, [], 0)
  }

  // Giving the top frame its value keeps every promise.
  lemma ValueFound(root: Node, stack: seq<Frame>, values: Values, value: Json)
    requires Invariant(root, stack, values) && stack != []
    requires value == Denote(stack[|stack| - 1].node)
    ensures Invariant(root, stack[..|stack| - 1], values[stack[|stack| - 1].path := value])
  {
    var top := stack[|stack| - 1];
    var rest, found := stack[..|stack| - 1], values[top.path := value];
    forall path, k: nat | Promised(stack, values, path, k)
      ensures Promised(rest, found, path, k)
    {
      if path !in values {
        var j :| k <= j < |stack| && stack[j].path == path;
        assert j < |rest| ==> rest[j].path == path;
      }
    }
  }

  // Replacing the top frame by its second visit below its children keeps every promise.
  lemma FirstVisit(root: Node, stack: seq<Frame>, values: Values)
    requires Invariant(root, stack, values) && stack != [] && !stack[|stack| - 1].visited
    ensures
      var top := stack[|stack| - 1];
      Invariant(root, stack[..|stack| - 1] + [top.(visited := true)] + ChildFrames(top.path, top.node, 0), values)
  {
    var top, n := stack[|stack| - 1], |stack|;
    var children := ChildFrames(top.path, top.node, 0);
    var pushed := stack[..n - 1] + [top.(visited := true)] + children;
    FramesSound(root, stack, values);
    forall path, k: nat | Promised(stack, values, path, k)
      ensures Promised(pushed, values, path, k)
    {
      if path !in values {
        var j :| k <= j < |stack| && stack[j].path == path;
        assert pushed[j].path == path;
      }
    }
    forall k, i | 0 <= k < |pushed| && pushed[k].visited && Present(pushed[k].node, i)
      ensures Promised(pushed, values, pushed[k].path + [i], k + 1)
    {
      PushedPromise(stack, values, k, i);
    }
  }

  lemma FramesSound(root: Node, stack: seq<Frame>, values: Values)
    requires Sound(root, stack, values) && stack != [] && !stack[|stack| - 1].visited
    ensures
      var top := stack[|stack| - 1];
      Sound(root, stack[..|stack| - 1] + [top.(visited := true)] + ChildFrames(top.path, top.node, 0), values)
  {
    var top, n := stack[|stack| - 1], |stack|;
    var children := ChildFrames(top.path, top.node, 0);
    var pushed := stack[..n - 1] + [top.(visited := true)] + children;
    forall k | 0 <= k < |pushed|
      ensures NodeAt(root, pushed[k].path) == Value(pushed[k].node)
    {
      if k >= n {
        assert pushed[k] == children[k - n];
        ChildFramesAre(top.path, top.node, 0, pushed[k]);
        var i :| 0 <= i < Width(top.node) && Child(top.node, i) == Value(pushed[k].node) && pushed[k].path == top.path + [i];
        NodeAtChild(root, top.path, i);
      } else if k < n - 1 {
        assert pushed[k] == stack[k];
      }
    }
  }

  lemma PushedPromise(stack: seq<Frame>, values: Values, k: nat, i: int)
    requires ChildrenPromised(stack, values) && stack != [] && !stack[|stack| - 1].visited
    requires
      var top := stack[|stack| - 1];
      var pushed := stack[..|stack| - 1] + [top.(visited := true)] + ChildFrames(top.path, top.node, 0);
      k < |pushed| && pushed[k].visited && Present(pushed[k].node, i)
    ensures
      var top := stack[|stack| - 1];
      var pushed := stack[..|stack| - 1] + [top.(visited := true)] + ChildFrames(top.path, top.node, 0);
      Promised(pushed, values, pushed[k].path + [i], k + 1)
  {
    var top, n := stack[|stack| - 1], |stack|;
    var children := ChildFrames(top.path, top.node, 0);
    var pushed := stack[..n - 1] + [top.(visited := true)] + children;
    if k < n - 1 {
      assert pushed[k] == stack[k];
      assert Promised(stack, values, stack[k].path + [i], k + 1);
      if stack[k].path + [i] !in values {
        var j :| k + 1 <= j < |stack| && stack[j].path == stack[k].path + [i];
        assert pushed[j].path == stack[j].path;
      }
    } else if k == n - 1 {
      ChildFramesHold(top.path, top.node, 0, i);
      var j :| 0 <= j < |children| && children[j] == Frame(top.path + [i], Child(top.node, i).node, false);
      assert pushed[n + j] == children[j];
    } else {
      assert pushed[k] == children[k - n];
      ChildFramesAre(top.path, top.node, 0, pushed[k]);
    }
  }

  // On its second visit, the children of the top node have their values.
  lemma ChildReady(root: Node, stack: seq<Frame>, values: Values, i: nat)
    requires Invariant(root, stack, values) && stack != [] && stack[|stack| - 1].visited
    requires Present(stack[|stack| - 1].node, i)
    ensures
      var top := stack[|stack| - 1];
      && top.path + [i] in values && values[top.path + [i]] == Denote(Child(top.node, i).node)
  {
    var top := stack[|stack| - 1];
    assert Promised(stack, values, top.path + [i], |stack|);
    assert Right(root, top.path + [i], values[top.path + [i]]);
    NodeAtChild(root, top.path, i);
  }

  // ----- The loops -----

  method PushChildren(stack: seq<Frame>, path: Path, node: Node) returns (pushed: seq<Frame>)
    ensures pushed == stack + ChildFrames(path, node, 0)
  {
    pushed := stack;
    for i := Width(node) downto 0
      invariant pushed == stack + ChildFrames(path, node, i)
    {
      var child := Child(node, i);
      if child.Value? {
        pushed := pushed + [Frame(path + [i], child.node, false)];
      }
    }
  }

  method AssembleArray(ghost root: Node, ghost stack: seq<Frame>, path: Path, items: seq<Node>, values: Values)
    returns (value: Json)
    requires Invariant(root, stack, values) && stack != [] && stack[|stack| - 1] == Frame(path, ArrayNode(items), true)
    ensures value == Denote(ArrayNode(items))
  {
    var elements: seq<Json> := [];
    for i := 0 to |items|
      invariant elements == DenoteItems(items, i)
    {
      ChildReady(root, stack, values, i);
      elements := elements + [values[path + [i]]];
    }
    value := JsonArray(elements);
  }

  method AssembleObject(ghost root: Node, ghost stack: seq<Frame>, path: Path, properties: seq<Property>, values: Values)
    returns (value: Json)
    requires Invariant(root, stack, values) && stack != [] && stack[|stack| - 1] == Frame(path, ObjectNode(properties), true)
    ensures value == Denote(ObjectNode(properties))
  {
    var entries: map<Text, Json> := map[];
    for i := 0 to |properties|
      invariant entries == DenoteProperties(properties, i)
    {
      if properties[i].key.Some? && properties[i].slot.Value? {
        ChildReady(root, stack, values, i);
        entries := entries[properties[i].key.value := values[path + [i]]];
      }
    }
    value := JsonObject(entries);
  }

  // The two-visit loop computes the recursive meaning of every tree.
  method MaterializeJsonValue(root: Node) returns (value: Json)
    ensures value == Denote(root)
  {
    var values: Values := map[];
    var stack := [Frame([], root, false)];
    while stack != []
      invariant Invariant(root, stack, values)
      decreases StackSize(stack)
    {
      var n := |stack|;
      var frame, rest := stack[n - 1], stack[..n - 1];
      if frame.node.AtomNode? {
        ValueFound(root, stack, values, JsonAtom(frame.node.atom));
        values := values[frame.path := JsonAtom(frame.node.atom)];
        stack := rest;
      } else if !frame.visited {
        FirstVisit(root, stack, values);
        ghost var again := rest + [frame.(visited := true)];
        assert again[..n - 1] == rest;
        PushedSize(again, frame.path, frame.node, 0);
        stack := PushChildren(rest + [frame.(visited := true)], frame.path, frame.node);
      } else {
        var found;
        if frame.node.ArrayNode? {
          found := AssembleArray(root, stack, frame.path, frame.node.items, values);
        } else {
          found := AssembleObject(root, stack, frame.path, frame.node.properties, values);
        }
        ValueFound(root, stack, values, found);
        values := values[frame.path := found];
        stack := rest;
      }
    }
    assert Right(root, [], values[[]]);
    value := values[[]];
  }
}
