/** The parsed HTML tree and the rules of the HTML Living Standard the form extraction has to follow. */
module HtmlTree {
  import opened Wrappers
  import opened Texts
  import opened Ranges

  datatype Tag = FormTag | FieldsetTag | LegendTag | ButtonTag | InputTag | SelectTag | TextareaTag | OtherTag

  // A type keyword after ASCII lowercasing; NoType stands for a keyword that is not known, and for "no type".
  datatype InputType =
    | NoType | ButtonType | CheckboxType | FileType | ImageType | RadioType | ResetType | SubmitType | TextType
    | OtherType(keyword: Text)

  datatype Attributes = Attributes(
    id: Option<Text>,
    name: Option<Text>,
    formId: Option<Text>,
    verb: Option<Text>,
    action: Option<Text>,
    typ: Option<InputType>,
    disabled: bool,
    multiple: bool,
    overridesAction: bool,
    overridesMethod: bool,
    ranges: map<Located, Range>)

  // The attributes whose own place in the source is reported, where the parser knows it.
  datatype Located = LocatedId | LocatedName | LocatedMethod | LocatedAction

  datatype Node = TextNode | Element(tag: Tag, attributes: Attributes, range: Range, children: seq<Node>)

  const NO_ATTRIBUTES := Attributes(None, None, None, None, None, None, false, false, false, false, map[])

  type ElementNode = n: Node | n.Element?
    witness Element(OtherTag, NO_ATTRIBUTES, Range(Position(0, 0), Position(0, 0)), [])

  // An element object is identified by its place in the tree: the child indices that lead to it.
  type Path = seq<nat>

  function NodeAt(nodes: seq<Node>, path: Path): Option<Node> {
    if path == [] || path[0] >= |nodes| then None
    else if |path| == 1 then Some(nodes[path[0]])
    else
      match nodes[path[0]]
      case TextNode => None
      case Element(_, _, _, children) => NodeAt(children, path[1..])
  }

  predicate IsElement(doc: seq<Node>, path: Path) {
    NodeAt(doc, path).Some? && NodeAt(doc, path).value.Element?
  }

  predicate HasTag(doc: seq<Node>, path: Path, tag: Tag) {
    IsElement(doc, path) && NodeAt(doc, path).value.tag == tag
  }

  predicate IsFormControlTag(tag: Tag) {
    tag in {ButtonTag, InputTag, SelectTag, TextareaTag}
  }

  predicate IsControl(doc: seq<Node>, path: Path) {
    IsElement(doc, path) && IsFormControlTag(NodeAt(doc, path).value.tag)
  }

  function AttributesAt(doc: seq<Node>, path: Path): Attributes
    requires IsElement(doc, path)
  {
    NodeAt(doc, path).value.attributes
  }

  predicate IsFirstLegend(children: seq<Node>, index: nat) {
    && index < |children| && children[index].Element? && children[index].tag == LegendTag
    && forall i :: 0 <= i < index ==> !(children[i].Element? && children[i].tag == LegendTag)
  }

  // The ancestor k levels below the root is a disabled fieldset, and the path does not go into its first legend.
  predicate DisabledAt(doc: seq<Node>, path: Path, k: nat) {
    && 1 <= k < |path| && HasTag(doc, path[..k], FieldsetTag)
    && AttributesAt(doc, path[..k]).disabled
    && !IsFirstLegend(NodeAt(doc, path[..k]).value.children, path[k])
  }

  // Section 4.10.18.5 of the HTML Living Standard, for the disabled state an element gets from its ancestors.
  ghost predicate UnderDisabledFieldset(doc: seq<Node>, path: Path) {
    exists k: nat :: DisabledAt(doc, path, k)
  }

  ghost predicate NearestForm(doc: seq<Node>, path: Path, form: Path) {
    && 1 <= |form| < |path| && path[..|form|] == form && HasTag(doc, form, FormTag)
    && forall k :: |form| < k < |path| ==> !HasTag(doc, path[..k], FormTag)
  }

  ghost predicate NoFormAbove(doc: seq<Node>, path: Path) {
    forall k :: 1 <= k < |path| ==> !HasTag(doc, path[..k], FormTag)
  }

  predicate HasId(doc: seq<Node>, path: Path, id: Text) {
    IsElement(doc, path) && AttributesAt(doc, path).id == Some(id)
  }

  // Tree order is the lexicographic order of paths, an ancestor before its descendants.
  ghost predicate FirstWithId(doc: seq<Node>, path: Path, id: Text) {
    HasId(doc, path, id) && forall other: Path :: HasId(doc, other, id) ==> other == path || Less(path, other)
  }

  // Section 4.10.17.3 of the HTML Living Standard: the form owner of a control.
  ghost predicate Owns(doc: seq<Node>, form: Path, control: Path)
    requires IsElement(doc, control)
  {
    match AttributesAt(doc, control).formId
    case Some(id) => id != [] && FirstWithId(doc, form, id) && HasTag(doc, form, FormTag)
    case None => NearestForm(doc, control, form)
  }

  lemma {:induction false} NodeAtChild(doc: seq<Node>, path: Path, index: nat)
    requires IsElement(doc, path)
    ensures
      var children := NodeAt(doc, path).value.children;
      NodeAt(doc, path + [index]) == if index < |children| then Some(children[index]) else None
  {
    if |path| == 1 {
      assert (path + [index])[1..] == [index];
    } else {
      assert (path + [index])[1..] == path[1..] + [index];
      NodeAtChild(doc[path[0]].children, path[1..], index);
    }
  }

  // Every proper ancestor of a node is an element.
  lemma {:induction false} AncestorIsElement(doc: seq<Node>, path: Path, k: nat)
    requires NodeAt(doc, path).Some? && 1 <= k < |path|
    ensures IsElement(doc, path[..k])
  {
    if k > 1 {
      assert path[..k][1..] == path[1..][..k - 1];
      AncestorIsElement(doc[path[0]].children, path[1..], k - 1);
    }
  }
}
