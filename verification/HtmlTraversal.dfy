/** The explicit-stack traversal of the HTML tree (packages/compiler/src/html-forms.ts), against the recursive rules. */
module HtmlTraversal {
  import opened Wrappers
  import opened Texts
  import opened Sequences
  import opened HtmlTree

  datatype ElementRef = ElementRef(path: Path, element: ElementNode)

  datatype ElementIndex = ElementIndex(
    controls: seq<ElementRef>,
    disabledByAncestor: map<Path, bool>,
    firstElementById: map<Text, ElementRef>,
    forms: seq<ElementRef>,
    nearestForm: map<Path, ElementRef>)

  // What the traversal knows about a node when it pops it.
  datatype Frame = Frame(path: Path, node: Node, disabled: bool, form: Option<ElementRef>)

  // What the children of a node inherit. The legend is the one that escapes a disabled fieldset.
  datatype Context = Context(path: Path, disabled: bool, fieldset: bool, legend: Option<nat>, form: Option<ElementRef>)

  const ROOT_CONTEXT := Context([], false, false, None, None)

  function FirstLegend(children: seq<Node>, from: nat): (r: Option<nat>)
    requires from <= |children|
    requires forall i :: 0 <= i < from ==> !(children[i].Element? && children[i].tag == LegendTag)
    ensures forall i: nat :: r == Some(i) <==> IsFirstLegend(children, i)
    decreases |children| - from
  {
    if from == |children| then None
    else if children[from].Element? && children[from].tag == LegendTag then Some(from)
    else FirstLegend(children, from + 1)
  }

  function ContextOf(frame: Frame): Context
    requires frame.node.Element?
  {
    var node := frame.node;
    var fieldset := node.tag == FieldsetTag && node.attributes.disabled;
    Context(
      frame.path,
      frame.disabled,
      fieldset,
      if fieldset then FirstLegend(node.children, 0) else None,
      if node.tag == FormTag then Some(ElementRef(frame.path, node)) else frame.form)
  }

  function ChildFrame(context: Context, nodes: seq<Node>, index: nat): Frame
    requires index < |nodes|
  {
    Frame(
      context.path + [index],
      nodes[index],
      context.disabled || (context.fieldset && context.legend != Some(index)),
      context.form)
  }

  // The recursive traversal: a node before its children, the children in order.
  function Walk(frame: Frame): seq<Frame>
    decreases frame.node, 0
  {
    if frame.node.TextNode? then [] else [frame] + WalkFrom(frame.node.children, 0, ContextOf(frame))
  }

  function WalkFrom(nodes: seq<Node>, index: nat, context: Context): seq<Frame>
    requires index <= |nodes|
    decreases nodes, |nodes| - index
  {
    if index == |nodes| then []
    else Walk(ChildFrame(context, nodes, index)) + WalkFrom(nodes, index + 1, context)
  }

  function Visits(doc: seq<Node>): seq<Frame> {
    WalkFrom(doc, 0, ROOT_CONTEXT)
  }

  // What the stack still has to visit; the last frame is popped first.
  function Pending(stack: seq<Frame>): seq<Frame> {
    if stack == [] then [] else Walk(stack[|stack| - 1]) + Pending(stack[..|stack| - 1])
  }

  function Size(node: Node): nat
    decreases node, 0
  {
    match node
    case TextNode => 1
    case Element(_, _, _, children) => 1 + SizeFrom(children, 0)
  }

  function SizeFrom(nodes: seq<Node>, index: nat): nat
    requires index <= |nodes|
    decreases nodes, |nodes| - index
  {
    if index == |nodes| then 0 else Size(nodes[index]) + SizeFrom(nodes, index + 1)
  }

  function StackSize(stack: seq<Frame>): nat {
    if stack == [] then 0 else Size(stack[|stack| - 1].node) + StackSize(stack[..|stack| - 1])
  }

  const EMPTY_INDEX := ElementIndex([], map[], map[], [], map[])

  // The facts collected from a sequence of visits.
  function Record(index: ElementIndex, frame: Frame): ElementIndex
    requires frame.node.Element?
  {
    var ref := ElementRef(frame.path, frame.node);
    var id := frame.node.attributes.id;
    ElementIndex(
      if IsFormControlTag(frame.node.tag) then index.controls + [ref] else index.controls,
      index.disabledByAncestor[frame.path := frame.disabled],
      if id.Some? && id.value != [] && id.value !in index.firstElementById
      then index.firstElementById[id.value := ref] else index.firstElementById,
      if frame.node.tag == FormTag then index.forms + [ref] else index.forms,
      if IsFormControlTag(frame.node.tag) && frame.form.Some?
      then index.nearestForm[frame.path := frame.form.value] else index.nearestForm)
  }

  function IndexOf(visits: seq<Frame>): ElementIndex
    requires forall v :: v in visits ==> v.node.Element?
  {
    if visits == [] then EMPTY_INDEX
    else Record(IndexOf(visits[..|visits| - 1]), visits[|visits| - 1])
  }

  lemma {:induction false} WalkElements(frame: Frame)
    ensures forall v :: v in Walk(frame) ==> v.node.Element?
    decreases frame.node, 0
  {
    if frame.node.Element? {
      WalkFromElements(frame.node.children, 0, ContextOf(frame));
    }
  }

  lemma {:induction false} WalkFromElements(nodes: seq<Node>, index: nat, context: Context)
    requires index <= |nodes|
    ensures forall v :: v in WalkFrom(nodes, index, context) ==> v.node.Element?
    decreases nodes, |nodes| - index
  {
    if index < |nodes| {
      WalkElements(ChildFrame(context, nodes, index));
      WalkFromElements(nodes, index + 1, context);
    }
  }

  // Pushing the frames of nodes[0..] from the last to the first puts their recursive traversal on top of the stack.
  lemma OnTop(stack: seq<Frame>, frame: Frame)
    ensures Pending(stack + [frame]) == Walk(frame) + Pending(stack)
    ensures StackSize(stack + [frame]) == Size(frame.node) + StackSize(stack)
  {
    assert (stack + [frame])[..|stack + [frame]| - 1] == stack;
  }

  method PushChildren(stack: seq<Frame>, nodes: seq<Node>, context: Context) returns (pushed: seq<Frame>)
    ensures Pending(pushed) == WalkFrom(nodes, 0, context) + Pending(stack)
    ensures StackSize(pushed) == SizeFrom(nodes, 0) + StackSize(stack)
  {
    pushed := stack;
    for index := |nodes| downto 0
      invariant Pending(pushed) == WalkFrom(nodes, index, context) + Pending(stack)
      invariant StackSize(pushed) == SizeFrom(nodes, index) + StackSize(stack)
    {
      var frame := ChildFrame(context, nodes, index);
      OnTop(pushed, frame);
      ConcatAssociative(Walk(frame), WalkFrom(nodes, index + 1, context), Pending(stack));
      pushed := pushed + [frame];
    }
  }

  method CollectElementIndex(nodes: seq<Node>) returns (index: ElementIndex)
    ensures (forall v :: v in Visits(nodes) ==> v.node.Element?) && index == IndexOf(Visits(nodes))
  {
    WalkFromElements(nodes, 0, ROOT_CONTEXT);
    var controls, forms: seq<ElementRef> := [], [];
    var disabledByAncestor := map[];
    var firstElementById := map[];
    var nearestForm := map[];
    ghost var visits: seq<Frame> := [];
    var stack := PushChildren([], nodes, ROOT_CONTEXT);
    while stack != []
      invariant visits + Pending(stack) == Visits(nodes)
      invariant forall v :: v in visits ==> v.node.Element?
      invariant ElementIndex(controls, disabledByAncestor, firstElementById, forms, nearestForm) == IndexOf(visits)
      decreases StackSize(stack)
    {
      var frame := stack[|stack| - 1];
      var rest := stack[..|stack| - 1];
      if frame.node.TextNode? {
        assert [] + Pending(rest) == Pending(rest);
        stack := rest;
      } else {
        var node := frame.node;
        var ref := ElementRef(frame.path, node);
        ghost var before := visits;
        visits := visits + [frame];
        assert visits[..|visits| - 1] == before;
        disabledByAncestor := disabledByAncestor[frame.path := frame.disabled];
        var id := node.attributes.id;
        if id.Some? && id.value != [] && id.value !in firstElementById {
          firstElementById := firstElementById[id.value := ref];
        }
        if node.tag == FormTag {
          forms := forms + [ref];
        }
        if IsFormControlTag(node.tag) {
          controls := controls + [ref];
          if frame.form.Some? {
            nearestForm := nearestForm[frame.path := frame.form.value];
          }
        }
        EmitHead(before, frame, WalkFrom(node.children, 0, ContextOf(frame)), Pending(rest));
        stack := PushChildren(rest, node.children, ContextOf(frame));
      }
    }
    assert visits + [] == visits;
    index := ElementIndex(controls, disabledByAncestor, firstElementById, forms, nearestForm);
  }
}
