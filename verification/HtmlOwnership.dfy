/** The traversal against the rules: every element once, in tree order, with its disabled state and nearest form. */
module HtmlOwnership {
  import opened Wrappers
  import opened Texts
  import opened HtmlTree
  import opened HtmlTraversal

  // What a frame carries is what the rules say about its node.
  ghost predicate FrameSound(doc: seq<Node>, frame: Frame) {
    && frame.path != [] && NodeAt(doc, frame.path) == Some(frame.node)
    && (frame.disabled <==> UnderDisabledFieldset(doc, frame.path))
    && match frame.form
       case None => NoFormAbove(doc, frame.path)
       case Some(form) => NearestForm(doc, frame.path, form.path) && NodeAt(doc, form.path) == Some(form.element)
  }

  ghost predicate ContextSound(doc: seq<Node>, nodes: seq<Node>, context: Context) {
    forall k :: 0 <= k < |nodes| ==> FrameSound(doc, ChildFrame(context, nodes, k))
  }

  ghost predicate TreeOrdered(frames: seq<Frame>) {
    forall i, j :: 0 <= i < j < |frames| ==> Less(frames[i].path, frames[j].path)
  }

  lemma ChildDisabled(doc: seq<Node>, path: Path, index: nat)
    requires IsElement(doc, path)
    ensures UnderDisabledFieldset(doc, path + [index]) <==>
      UnderDisabledFieldset(doc, path) || DisabledAt(doc, path + [index], |path|)
  {
    var child := path + [index];
    if UnderDisabledFieldset(doc, path) {
      var k: nat :| DisabledAt(doc, path, k);
      assert child[..k] == path[..k];
      assert DisabledAt(doc, child, k);
    }
    if UnderDisabledFieldset(doc, child) {
      var k: nat :| DisabledAt(doc, child, k);
      if k < |path| {
        assert child[..k] == path[..k];
        assert DisabledAt(doc, path, k);
      }
    }
  }

  lemma ChildNearestForm(doc: seq<Node>, path: Path, index: nat)
    requires IsElement(doc, path)
    ensures HasTag(doc, path, FormTag) ==> NearestForm(doc, path + [index], path)
    ensures !HasTag(doc, path, FormTag) && NoFormAbove(doc, path) ==> NoFormAbove(doc, path + [index])
    ensures forall form :: !HasTag(doc, path, FormTag) && NearestForm(doc, path, form) ==> NearestForm(doc, path + [index], form)
  {
    var child := path + [index];
    assert child[..|path|] == path;
    forall k | 1 <= k < |path| ensures child[..k] == path[..k] {
    }
  }

  lemma ChildrenSound(doc: seq<Node>, frame: Frame)
    requires FrameSound(doc, frame) && frame.node.Element?
    ensures ContextSound(doc, frame.node.children, ContextOf(frame))
  {
    var context, children := ContextOf(frame), frame.node.children;
    forall k | 0 <= k < |children| ensures FrameSound(doc, ChildFrame(context, children, k)) {
      NodeAtChild(doc, frame.path, k);
      ChildDisabled(doc, frame.path, k);
      ChildNearestForm(doc, frame.path, k);
      var child := frame.path + [k];
      assert child[..|frame.path|] == frame.path;
      assert DisabledAt(doc, child, |frame.path|) <==> context.fieldset && context.legend != Some(k);
    }
  }

  lemma {:induction false} WalkSound(doc: seq<Node>, frame: Frame)
    requires FrameSound(doc, frame)
    ensures forall v :: v in Walk(frame) ==> FrameSound(doc, v) && v.node.Element?
    decreases frame.node, 0
  {
    if frame.node.Element? {
      ChildrenSound(doc, frame);
      WalkFromSound(doc, frame.node.children, 0, ContextOf(frame));
    }
  }

  lemma {:induction false} WalkFromSound(doc: seq<Node>, nodes: seq<Node>, index: nat, context: Context)
    requires index <= |nodes| && ContextSound(doc, nodes, context)
    ensures forall v :: v in WalkFrom(nodes, index, context) ==> FrameSound(doc, v) && v.node.Element?
    decreases nodes, |nodes| - index
  {
    if index < |nodes| {
      WalkSound(doc, ChildFrame(context, nodes, index));
      WalkFromSound(doc, nodes, index + 1, context);
    }
  }

  predicate Extends(path: Path, prefix: Path) {
    |prefix| <= |path| && path[..|prefix|] == prefix
  }

  lemma {:induction false} WalkTreeOrdered(frame: Frame)
    ensures TreeOrdered(Walk(frame))
    ensures forall v :: v in Walk(frame) ==> Extends(v.path, frame.path)
    decreases frame.node, 0
  {
    if frame.node.Element? {
      var context := ContextOf(frame);
      var below := WalkFrom(frame.node.children, 0, context);
      WalkFromTreeOrdered(frame.node.children, 0, context);
      forall v | v in below ensures Extends(v.path, frame.path) && Less(frame.path, v.path) {
        assert v.path == frame.path + v.path[|frame.path|..];
        LessExtension(frame.path, v.path[|frame.path|..]);
      }
    }
  }

  ghost predicate Below(path: Path, context: Context, index: nat) {
    |path| > |context.path| && path[..|context.path|] == context.path && path[|context.path|] >= index
  }

  lemma {:induction false} WalkFromTreeOrdered(nodes: seq<Node>, index: nat, context: Context)
    requires index <= |nodes|
    ensures TreeOrdered(WalkFrom(nodes, index, context))
    ensures forall v :: v in WalkFrom(nodes, index, context) ==> Below(v.path, context, index)
    decreases nodes, |nodes| - index
  {
    if index < |nodes| {
      var child := ChildFrame(context, nodes, index);
      var first, later := Walk(child), WalkFrom(nodes, index + 1, context);
      WalkTreeOrdered(child);
      WalkFromTreeOrdered(nodes, index + 1, context);
      forall v | v in first ensures Below(v.path, context, index) && v.path[|context.path|] == index {
      }
      forall v, w | v in first && w in later ensures Less(v.path, w.path) {
        LessFromWitness(v.path, w.path, |context.path|);
      }
    }
  }

  lemma {:induction false} WalkComplete(doc: seq<Node>, frame: Frame, path: Path)
    requires FrameSound(doc, frame) && IsElement(doc, path) && Extends(path, frame.path)
    ensures exists v :: v in Walk(frame) && v.path == path
    decreases frame.node, 0
  {
    if path == frame.path {
      assert frame in Walk(frame);
    } else {
      var m := |frame.path|;
      assert m < |path|;
      AncestorIsElement(doc, path, m);
      NodeAtChild(doc, frame.path, path[m]);
      assert path[..m + 1] == frame.path + [path[m]];
      if m + 1 < |path| {
        AncestorIsElement(doc, path, m + 1);
      } else {
        assert path[..m + 1] == path;
      }
      ChildrenSound(doc, frame);
      WalkFromComplete(doc, frame.node.children, 0, ContextOf(frame), path);
    }
  }

  lemma {:induction false} WalkFromComplete(doc: seq<Node>, nodes: seq<Node>, index: nat, context: Context, path: Path)
    requires index <= |nodes| && ContextSound(doc, nodes, context)
    requires IsElement(doc, path) && Below(path, context, index) && path[|context.path|] < |nodes|
    ensures exists v :: v in WalkFrom(nodes, index, context) && v.path == path
    decreases nodes, |nodes| - index
  {
    if path[|context.path|] == index {
      assert path[..|context.path| + 1] == context.path + [index];
      WalkComplete(doc, ChildFrame(context, nodes, index), path);
      var v :| v in Walk(ChildFrame(context, nodes, index)) && v.path == path;
      assert v in WalkFrom(nodes, index, context);
    } else {
      WalkFromComplete(doc, nodes, index + 1, context, path);
      var v :| v in WalkFrom(nodes, index + 1, context) && v.path == path;
      assert v in WalkFrom(nodes, index, context);
    }
  }

  // The traversal visits every element of every tree, once, in tree order, and knows its disabled state and nearest form.
  lemma VisitsCorrect(doc: seq<Node>)
    ensures forall v :: v in Visits(doc) ==> FrameSound(doc, v) && v.node.Element?
    ensures TreeOrdered(Visits(doc))
    ensures forall path :: IsElement(doc, path) ==> exists v :: v in Visits(doc) && v.path == path
  {
    WalkFromSound(doc, doc, 0, ROOT_CONTEXT);
    WalkFromTreeOrdered(doc, 0, ROOT_CONTEXT);
    forall path | IsElement(doc, path) ensures exists v :: v in Visits(doc) && v.path == path {
      WalkFromComplete(doc, doc, 0, ROOT_CONTEXT, path);
    }
  }

  // ----- The collected index -----

  ghost predicate RefsOrdered(refs: seq<ElementRef>) {
    forall i, j :: 0 <= i < j < |refs| ==> Less(refs[i].path, refs[j].path)
  }

  ghost predicate AllElements(visits: seq<Frame>) {
    forall v :: v in visits ==> v.node.Element?
  }

  predicate Carries(frame: Frame, id: Text) {
    id != [] && frame.node.Element? && frame.node.attributes.id == Some(id)
  }

  // The visit that decides what an id refers to: the first one that carries it.
  ghost predicate FirstCarrier(visits: seq<Frame>, id: Text, k: nat) {
    k < |visits| && Carries(visits[k], id) && forall j :: 0 <= j < k ==> !Carries(visits[j], id)
  }

  ghost predicate Lists(refs: seq<ElementRef>, visits: seq<Frame>, keep: Frame -> bool) {
    && RefsOrdered(refs)
    && forall r :: r in refs <==> exists v :: v in visits && keep(v) && v.path == r.path && v.node == r.element
  }

  function IsControlFrame(): Frame -> bool {
    (v: Frame) => v.node.Element? && IsFormControlTag(v.node.tag)
  }

  function IsFormFrame(): Frame -> bool {
    (v: Frame) => v.node.Element? && v.node.tag == FormTag
  }

  lemma ListsStep(refs: seq<ElementRef>, visits: seq<Frame>, keep: Frame -> bool, frame: Frame)
    requires Lists(refs, visits, keep) && TreeOrdered(visits + [frame]) && frame.node.Element?
    ensures Lists(if keep(frame) then refs + [ElementRef(frame.path, frame.node)] else refs, visits + [frame], keep)
  {
    var more := visits + [frame];
    var refs' := if keep(frame) then refs + [ElementRef(frame.path, frame.node)] else refs;
    forall r | r in refs ensures Less(r.path, frame.path) {
      var v :| v in visits && keep(v) && v.path == r.path && v.node == r.element;
      var i :| 0 <= i < |visits| && visits[i] == v;
      assert more[i] == v && more[|visits|] == frame;
    }
    forall r ensures r in refs' <==> exists v :: v in more && keep(v) && v.path == r.path && v.node == r.element {
      if r in refs {
        var v :| v in visits && keep(v) && v.path == r.path && v.node == r.element;
        assert v in more;
      } else if r in refs' {
        assert frame in more;
      }
    }
    forall i, j | 0 <= i < j < |refs'| ensures Less(refs'[i].path, refs'[j].path) {
      assert i < |refs| ==> refs[i] in refs;
    }
  }

  lemma {:induction false} IndexLists(visits: seq<Frame>)
    requires AllElements(visits) && TreeOrdered(visits)
    ensures Lists(IndexOf(visits).controls, visits, IsControlFrame())
    ensures Lists(IndexOf(visits).forms, visits, IsFormFrame())
  {
    if visits != [] {
      var before, last := visits[..|visits| - 1], visits[|visits| - 1];
      assert visits == before + [last];
      IndexLists(before);
      ListsStep(IndexOf(before).controls, before, IsControlFrame(), last);
      ListsStep(IndexOf(before).forms, before, IsFormFrame(), last);
    }
  }

  lemma OtherPaths(before: seq<Frame>, last: Frame)
    requires TreeOrdered(before + [last])
    ensures TreeOrdered(before) && forall v :: v in before ==> v.path != last.path
  {
    var visits := before + [last];
    forall i, j | 0 <= i < j < |before| ensures Less(before[i].path, before[j].path) {
      assert Less(visits[i].path, visits[j].path);
    }
    forall v | v in before ensures v.path != last.path {
      var i :| 0 <= i < |before| && before[i] == v;
      assert Less(visits[i].path, visits[|before|].path);
      LessIrreflexive(v.path);
    }
  }

  lemma {:induction false} IndexMaps(visits: seq<Frame>)
    requires AllElements(visits) && TreeOrdered(visits)
    ensures var index := IndexOf(visits);
      && (forall v :: v in visits ==> v.path in index.disabledByAncestor && index.disabledByAncestor[v.path] == v.disabled)
      && (forall v :: v in visits && IsFormControlTag(v.node.tag) ==>
            (v.path in index.nearestForm <==> v.form.Some?) && (v.form.Some? ==> index.nearestForm[v.path] == v.form.value))
      && (forall p :: p in index.nearestForm ==> exists v :: v in visits && v.path == p)
  {
    if visits != [] {
      var before, last := visits[..|visits| - 1], visits[|visits| - 1];
      assert visits == before + [last];
      OtherPaths(before, last);
      IndexMaps(before);
    }
  }

  lemma {:induction false} IndexIds(visits: seq<Frame>, id: Text)
    requires AllElements(visits)
    ensures var ids := IndexOf(visits).firstElementById;
      && (id in ids <==> exists k: nat :: FirstCarrier(visits, id, k))
      && (forall k: nat :: FirstCarrier(visits, id, k) ==> ids[id] == ElementRef(visits[k].path, visits[k].node))
  {
    if visits != [] {
      var before, last := visits[..|visits| - 1], visits[|visits| - 1];
      IndexIds(before, id);
      forall k: nat | k < |before| ensures FirstCarrier(visits, id, k) <==> FirstCarrier(before, id, k) {
      }
      if id in IndexOf(before).firstElementById {
        var k: nat :| FirstCarrier(before, id, k);
        assert FirstCarrier(visits, id, k);
      } else if Carries(last, id) {
        NoCarrier(before, id);
        assert FirstCarrier(visits, id, |before|);
      }
    }
  }

  // Without a first carrier there is no carrier.
  lemma {:induction false} NoCarrier(visits: seq<Frame>, id: Text)
    requires forall k: nat :: !FirstCarrier(visits, id, k)
    ensures forall j :: 0 <= j < |visits| ==> !Carries(visits[j], id)
  {
    if visits != [] {
      var before := visits[..|visits| - 1];
      forall k: nat | k < |before| ensures !FirstCarrier(before, id, k) {
        assert !FirstCarrier(visits, id, k);
      }
      NoCarrier(before, id);
      assert !FirstCarrier(visits, id, |before|);
    }
  }
}
