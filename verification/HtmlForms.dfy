/** Extraction of indexed forms from an HTML tree (packages/compiler/src/html-forms.ts). */
module HtmlForms {
  import opened Wrappers
  import opened Texts
  import opened Ranges
  import opened Sequences
  import opened HtmlTree
  import opened HtmlTraversal
  import opened HtmlOwnership
  import opened FormIndexModel

  function ControlInputType(element: ElementNode): InputType {
    match element.tag
    case InputTag => (match element.attributes.typ
                      case Some(t) => if t == NoType then TextType else t
                      case None => TextType)
    case ButtonTag => (match element.attributes.typ
                       case Some(t) => if t in {ButtonType, ResetType, SubmitType} then t else SubmitType
                       case None => SubmitType)
    case _ => NoType
  }

  predicate IsSuccessfulFieldCandidate(element: ElementNode, disabled: bool) {
    && !disabled && element.tag != ButtonTag
    && (element.tag == InputTag ==>
          ControlInputType(element) !in {ButtonType, FileType, ImageType, ResetType, SubmitType})
  }

  predicate IsSubmitter(element: ElementNode) {
    || (element.tag == ButtonTag && ControlInputType(element) == SubmitType)
    || (element.tag == InputTag && ControlInputType(element) in {ImageType, SubmitType})
  }

  predicate IsNamed(element: ElementNode) {
    element.attributes.name.Some? && element.attributes.name.value != []
  }

  function UnsupportedControlReason(element: ElementNode): Option<UnsupportedReason> {
    if IsSubmitter(element) && (element.attributes.overridesAction || element.attributes.overridesMethod)
    then Some(SubmitterRouteOverride)
    else if IsSubmitter(element) && IsNamed(element) then Some(NamedSubmitter)
    else if element.tag == InputTag && ControlInputType(element) == FileType && IsNamed(element) then Some(FileInput)
    else None
  }

  function SuccessfulEvidence(element: ElementNode, disabled: bool): Evidence<bool> {
    if disabled then Known(false, element.range)
    else
      match UnsupportedControlReason(element)
      case Some(reason) => Unsupported(reason, element.range)
      case None => Known(IsSuccessfulFieldCandidate(element, disabled), element.range)
  }

  function AssociatedForm(control: ElementRef, index: ElementIndex): Option<ElementRef> {
    match control.element.attributes.formId
    case Some(id) =>
      if id in index.firstElementById && index.firstElementById[id].element.tag == FormTag
      then Some(index.firstElementById[id]) else None
    case None =>
      if control.path in index.nearestForm then Some(index.nearestForm[control.path]) else None
  }

  function IsDisabled(control: ElementRef, index: ElementIndex): bool {
    control.element.attributes.disabled
    || (control.path in index.disabledByAncestor && index.disabledByAncestor[control.path])
  }

  predicate OwnedBy(index: ElementIndex, form: Path, control: ElementRef) {
    AssociatedForm(control, index).Some? && AssociatedForm(control, index).value.path == form
  }

  predicate InGroup(index: ElementIndex, form: Path, name: Text, control: ElementRef) {
    && OwnedBy(index, form, control)
    && IsSuccessfulFieldCandidate(control.element, IsDisabled(control, index))
    && name != [] && control.element.attributes.name == Some(name)
  }

  function OwnedTest(index: ElementIndex, form: Path): ElementRef -> bool {
    (c: ElementRef) => OwnedBy(index, form, c)
  }

  function GroupTest(index: ElementIndex, form: Path, name: Text): ElementRef -> bool {
    (c: ElementRef) => InGroup(index, form, name, c)
  }

  function Owned(index: ElementIndex, form: Path, controls: seq<ElementRef>): seq<ElementRef> {
    Filter(OwnedTest(index, form), controls)
  }

  function Group(index: ElementIndex, form: Path, name: Text, controls: seq<ElementRef>): seq<ElementRef> {
    Filter(GroupTest(index, form, name), controls)
  }

  function KindOf(tag: Tag): ControlKind {
    match tag
    case ButtonTag => ButtonControl
    case SelectTag => SelectControl
    case TextareaTag => TextareaControl
    case _ => InputControl
  }

  predicate IsRadio(element: ElementNode) {
    element.tag == InputTag && ControlInputType(element) == RadioType
  }

  function ControlMultiplicity(element: ElementNode, group: seq<ElementRef>, candidate: bool): Multiplicity {
    if !IsNamed(element) || !candidate then Scalar
    else if group != [] && (forall c :: c in group ==> IsRadio(c.element)) then MutuallyExclusive
    else if (element.tag == SelectTag && element.attributes.multiple) || |group| > 1 then Repeated
    else Scalar
  }

  function AttributeEvidence(value: Option<Text>, range: Range): Evidence<Text> {
    if value.Some? && value.value != [] then Known(value.value, range) else Absent(Some(range))
  }

  // The place of an attribute, or else that of its element.
  function AttributeRange(element: ElementNode, attribute: Located): Range {
    if attribute in element.attributes.ranges then element.attributes.ranges[attribute] else element.range
  }

  function IndexedControlOf(element: ElementNode, disabled: bool, group: seq<ElementRef>): IndexedControl {
    var range := element.range;
    IndexedControl(
      AttributeEvidence(element.attributes.name, AttributeRange(element, LocatedName)),
      Known(KindOf(element.tag), range),
      Known(ControlInputType(element), range),
      Known(element.attributes.multiple, range),
      Known(ControlMultiplicity(element, group, IsSuccessfulFieldCandidate(element, disabled)), range),
      SuccessfulEvidence(element, disabled),
      range)
  }

  function AsciiLowercase(s: Text): Text {
    seq(|s|, i requires 0 <= i < |s| => if 65 <= s[i] <= 90 then s[i] + 32 else s[i])
  }

  function IndexedFormOf(form: ElementNode, controls: seq<IndexedControl>): IndexedForm {
    var attributes, range := form.attributes, form.range;
    IndexedForm(
      AttributeEvidence(attributes.id, AttributeRange(form, LocatedId)),
      if attributes.verb.Some? then Known(AsciiLowercase(attributes.verb.value), AttributeRange(form, LocatedMethod))
      else Absent(Some(AttributeRange(form, LocatedMethod))),
      if attributes.action.Some? && attributes.action.value != []
      then ActionAttribute(Known(attributes.action.value, AttributeRange(form, LocatedAction)))
      else CurrentDocument(AttributeRange(form, LocatedAction)),
      range,
      controls)
  }

  // ----- The extraction as a function of the collected index -----

  function NameOf(element: ElementNode): Text {
    if element.attributes.name.Some? then element.attributes.name.value else []
  }

  function ExtractedControl(index: ElementIndex, form: Path, control: ElementRef): IndexedControl {
    IndexedControlOf(control.element, IsDisabled(control, index),
                     Group(index, form, NameOf(control.element), index.controls))
  }

  function Extraction(index: ElementIndex, form: Path): ElementRef -> IndexedControl {
    (c: ElementRef) => ExtractedControl(index, form, c)
  }

  function ExtractedForm(index: ElementIndex, form: ElementRef): IndexedForm {
    IndexedFormOf(form.element,
                  Map(Extraction(index, form.path), Owned(index, form.path, index.controls)))
  }

  function IndexFor(doc: seq<Node>): ElementIndex {
    WalkFromElements(doc, 0, ROOT_CONTEXT);
    IndexOf(Visits(doc))
  }

  function FormExtraction(index: ElementIndex): ElementRef -> IndexedForm {
    (f: ElementRef) => ExtractedForm(index, f)
  }

  function FormsOf(doc: seq<Node>): seq<IndexedForm> {
    var index := IndexFor(doc);
    Map(FormExtraction(index), index.forms)
  }

  // ----- The extraction as the program runs it -----

  datatype ControlState = ControlState(disabled: bool, successfulCandidate: bool)

  type Groups = map<Path, map<Text, seq<ElementRef>>>

  function At<K, V>(m: map<K, seq<V>>, key: K): seq<V> {
    if key in m then m[key] else []
  }

  function GroupAt(groups: Groups, form: Path, name: Text): seq<ElementRef> {
    if form in groups then At(groups[form], name) else []
  }

  function Append<K, V>(m: map<K, seq<V>>, key: K, value: V): map<K, seq<V>> {
    m[key := At(m, key) + [value]]
  }

  function AppendGroup(groups: Groups, form: Path, name: Text, control: ElementRef): Groups {
    groups[form := Append(if form in groups then groups[form] else map[], name, control)]
  }

  // The maps hold, for every form, its controls and name groups among the controls seen so far.
  ghost predicate Grouped(index: ElementIndex, seen: seq<ElementRef>, owned: map<Path, seq<ElementRef>>, groups: Groups) {
    && (forall form :: At(owned, form) == Owned(index, form, seen))
    && (forall form, name :: GroupAt(groups, form, name) == Group(index, form, name, seen))
  }

  lemma OwnedStep(index: ElementIndex, seen: seq<ElementRef>, control: ElementRef, owned: map<Path, seq<ElementRef>>)
    requires forall form :: At(owned, form) == Owned(index, form, seen)
    ensures
      var owner := AssociatedForm(control, index);
      var next := if owner.Some? then Append(owned, owner.value.path, control) else owned;
      forall form :: At(next, form) == Owned(index, form, seen + [control])
  {
    var owner := AssociatedForm(control, index);
    if owner.Some? {
      AppendAt(owned, owner.value.path, control);
    }
    forall form ensures Owned(index, form, seen + [control])
      == Owned(index, form, seen) + if OwnedBy(index, form, control) then [control] else []
    {
      FilterAppend(OwnedTest(index, form), seen, control);
    }
  }

  lemma GroupsStep(index: ElementIndex, seen: seq<ElementRef>, control: ElementRef, groups: Groups)
    requires forall form, name :: GroupAt(groups, form, name) == Group(index, form, name, seen)
    ensures
      var owner, own := AssociatedForm(control, index), NameOf(control.element);
      var next := if owner.Some? && InGroup(index, owner.value.path, own, control)
                  then AppendGroup(groups, owner.value.path, own, control) else groups;
      forall form, name :: GroupAt(next, form, name) == Group(index, form, name, seen + [control])
  {
    var owner := AssociatedForm(control, index);
    if owner.Some? {
      AppendGroupAt(groups, owner.value.path, NameOf(control.element), control);
    }
    forall form, name ensures Group(index, form, name, seen + [control])
      == Group(index, form, name, seen) + if InGroup(index, form, name, control) then [control] else []
    {
      FilterAppend(GroupTest(index, form, name), seen, control);
    }
  }

  lemma GroupedStep(index: ElementIndex, seen: seq<ElementRef>, control: ElementRef,
                    owned: map<Path, seq<ElementRef>>, groups: Groups)
    requires Grouped(index, seen, owned, groups)
    ensures
      var owner := AssociatedForm(control, index);
      var name := NameOf(control.element);
      Grouped(index, seen + [control],
              if owner.Some? then Append(owned, owner.value.path, control) else owned,
              if owner.Some? && InGroup(index, owner.value.path, name, control)
              then AppendGroup(groups, owner.value.path, name, control) else groups)
  {
    OwnedStep(index, seen, control, owned);
    GroupsStep(index, seen, control, groups);
  }

  lemma AppendAt<K(!new), V(!new)>(m: map<K, seq<V>>, key: K, value: V)
    ensures forall k :: At(Append(m, key, value), k) == At(m, k) + if k == key then [value] else []
  {
  }

  lemma AppendGroupAt(groups: Groups, form: Path, name: Text, control: ElementRef)
    ensures forall f, n ::
      GroupAt(AppendGroup(groups, form, name, control), f, n) == GroupAt(groups, f, n) + (if f == form && n == name then [control] else [])
  {
    AppendAt(if form in groups then groups[form] else map[], name, control);
  }

  ghost predicate StatesRecorded(index: ElementIndex, controls: seq<ElementRef>, states: map<Path, ControlState>) {
    forall j :: 0 <= j < |controls| ==>
      controls[j].path in states && states[controls[j].path].disabled == IsDisabled(controls[j], index)
  }

  method IndexedFormFact(index: ElementIndex, form: ElementRef, owned: seq<ElementRef>,
                         groups: Groups, states: map<Path, ControlState>) returns (fact: IndexedForm)
    requires owned == Owned(index, form.path, index.controls)
    requires forall name :: GroupAt(groups, form.path, name) == Group(index, form.path, name, index.controls)
    requires StatesRecorded(index, index.controls, states)
    ensures fact == ExtractedForm(index, form)
  {
    var facts := [];
    for j := 0 to |owned|
      invariant facts == Map(Extraction(index, form.path), owned[..j])
    {
      var control := owned[j];
      assert control in owned && control in index.controls;
      var group := GroupAt(groups, form.path, NameOf(control.element));
      facts := facts + [IndexedControlOf(control.element, states[control.path].disabled, group)];
    }
    assert owned[..|owned|] == owned;
    fact := IndexedFormOf(form.element, facts);
  }

  // One control: its state is recorded, and it joins the controls of its form and the group of its name there.
  method GroupControl(index: ElementIndex, control: ElementRef, owned: map<Path, seq<ElementRef>>, groups: Groups)
    returns (state: ControlState, nextOwned: map<Path, seq<ElementRef>>, nextGroups: Groups)
    ensures state.disabled == IsDisabled(control, index)
    ensures
      var owner, name := AssociatedForm(control, index), NameOf(control.element);
      && nextOwned == (if owner.Some? then Append(owned, owner.value.path, control) else owned)
      && nextGroups == if owner.Some? && InGroup(index, owner.value.path, name, control)
                       then AppendGroup(groups, owner.value.path, name, control) else groups
  {
    var owner := AssociatedForm(control, index);
    var disabled := control.element.attributes.disabled
      || (control.path in index.disabledByAncestor && index.disabledByAncestor[control.path]);
    var candidate := IsSuccessfulFieldCandidate(control.element, disabled);
    state, nextOwned, nextGroups := ControlState(disabled, candidate), owned, groups;
    if owner.Some? {
      nextOwned := Append(owned, owner.value.path, control);
      var name := NameOf(control.element);
      if candidate && name != [] {
        nextGroups := AppendGroup(groups, owner.value.path, name, control);
      }
    }
  }

  lemma StateRecorded(index: ElementIndex, seen: seq<ElementRef>, control: ElementRef, states: map<Path, ControlState>, state: ControlState)
    requires StatesRecorded(index, seen, states) && state.disabled == IsDisabled(control, index)
    requires forall c :: c in seen ==> c.path != control.path
    ensures StatesRecorded(index, seen + [control], states[control.path := state])
  {
  }

  method GroupControls(index: ElementIndex)
    returns (states: map<Path, ControlState>, owned: map<Path, seq<ElementRef>>, groups: Groups)
    requires forall i, j :: 0 <= i < j < |index.controls| ==> index.controls[i].path != index.controls[j].path
    ensures Grouped(index, index.controls, owned, groups) && StatesRecorded(index, index.controls, states)
  {
    states, owned, groups := map[], map[], map[];
    for k := 0 to |index.controls|
      invariant Grouped(index, index.controls[..k], owned, groups)
      invariant StatesRecorded(index, index.controls[..k], states)
    {
      var control := index.controls[k];
      GroupedStep(index, index.controls[..k], control, owned, groups);
      var state, nextOwned, nextGroups := GroupControl(index, control, owned, groups);
      StateRecorded(index, index.controls[..k], control, states, state);
      states, owned, groups := states[control.path := state], nextOwned, nextGroups;
      assert index.controls[..k + 1] == index.controls[..k] + [control];
    }
    assert index.controls[..|index.controls|] == index.controls;
  }

  // What is recorded for a document: the digest is that of its text, and an HTML page is always inspected completely.
  datatype FormDocument = FormDocument(path: Text, contentDigest: Text, complete: bool, forms: seq<IndexedForm>)

  method ExtractForms(doc: seq<Node>) returns (forms: seq<IndexedForm>)
    ensures forms == FormsOf(doc)
  {
    var index := CollectElementIndex(doc);
    ControlPathsDistinct(doc);
    var controlStates, controlsByForm, groupsByForm := GroupControls(index);
    forms := [];
    for k := 0 to |index.forms|
      invariant forms == Map(FormExtraction(index), index.forms[..k])
    {
      var form := index.forms[k];
      var fact := IndexedFormFact(index, form, At(controlsByForm, form.path), groupsByForm, controlStates);
      forms := forms + [fact];
    }
    assert index.forms[..|index.forms|] == index.forms;
  }

  method ExtractStaticHtmlFormDocument(path: Text, html: Text, parse: Text -> seq<Node>, digest: Text -> Text)
    returns (document: FormDocument)
    ensures document == FormDocument(path, digest(html), true, FormsOf(parse(html)))
  {
    var forms := ExtractForms(parse(html));
    document := FormDocument(path, digest(html), true, forms);
  }

  lemma ControlPathsDistinct(doc: seq<Node>)
    ensures var controls := IndexFor(doc).controls;
      forall i, j :: 0 <= i < j < |controls| ==> controls[i].path != controls[j].path
  {
    VisitsCorrect(doc);
    IndexLists(Visits(doc));
    var controls := IndexFor(doc).controls;
    forall i, j | 0 <= i < j < |controls| ensures controls[i].path != controls[j].path {
      LessIrreflexive(controls[i].path);
    }
  }

  // ----- The extraction against the rules of the HTML Living Standard -----

  // Exactly the controls of the tree are collected, each once, in tree order.
  lemma ControlsExact(doc: seq<Node>)
    ensures RefsOrdered(IndexFor(doc).controls)
    ensures forall path, element ::
      ElementRef(path, element) in IndexFor(doc).controls <==>
      IsControl(doc, path) && NodeAt(doc, path) == Some(element)
  {
    VisitsCorrect(doc);
    IndexLists(Visits(doc));
    forall path, element | IsControl(doc, path) && NodeAt(doc, path) == Some(element)
      ensures ElementRef(path, element) in IndexFor(doc).controls
    {
      var v :| v in Visits(doc) && v.path == path;
      assert FrameSound(doc, v) && IsControlFrame()(v);
    }
    forall ref | ref in IndexFor(doc).controls ensures IsControl(doc, ref.path) && NodeAt(doc, ref.path) == Some(ref.element) {
      var v :| v in Visits(doc) && IsControlFrame()(v) && v.path == ref.path && v.node == ref.element;
      assert FrameSound(doc, v);
    }
  }

  // Exactly the forms of the tree are collected, each once, in tree order.
  lemma FormsExact(doc: seq<Node>)
    ensures RefsOrdered(IndexFor(doc).forms)
    ensures forall path, element ::
      ElementRef(path, element) in IndexFor(doc).forms <==>
      HasTag(doc, path, FormTag) && NodeAt(doc, path) == Some(element)
  {
    VisitsCorrect(doc);
    IndexLists(Visits(doc));
    forall path, element | HasTag(doc, path, FormTag) && NodeAt(doc, path) == Some(element)
      ensures ElementRef(path, element) in IndexFor(doc).forms
    {
      var v :| v in Visits(doc) && v.path == path;
      assert FrameSound(doc, v) && IsFormFrame()(v);
    }
    forall ref | ref in IndexFor(doc).forms ensures HasTag(doc, ref.path, FormTag) && NodeAt(doc, ref.path) == Some(ref.element) {
      var v :| v in Visits(doc) && IsFormFrame()(v) && v.path == ref.path && v.node == ref.element;
      assert FrameSound(doc, v);
    }
  }

  // The map from ids names, for every id, the first element in tree order that has it.
  lemma FirstElementByIdCorrect(doc: seq<Node>, id: Text)
    requires id != []
    ensures var ids := IndexFor(doc).firstElementById;
      && (id in ids ==> FirstWithId(doc, ids[id].path, id) && NodeAt(doc, ids[id].path) == Some(ids[id].element))
      && (id !in ids ==> forall path :: !HasId(doc, path, id))
  {
    VisitsCorrect(doc);
    var visits := Visits(doc);
    IndexIds(visits, id);
    var ids := IndexFor(doc).firstElementById;
    if id in ids {
      var k: nat :| FirstCarrier(visits, id, k);
      assert FrameSound(doc, visits[k]);
      forall other: Path | HasId(doc, other, id) ensures other == visits[k].path || Less(visits[k].path, other) {
        var v :| v in visits && v.path == other;
        var j :| 0 <= j < |visits| && visits[j] == v;
        assert FrameSound(doc, v) && Carries(visits[j], id);
      }
    } else {
      NoCarrier(visits, id);
      forall path | IsElement(doc, path) ensures !HasId(doc, path, id) {
        var v :| v in visits && v.path == path;
        var j :| 0 <= j < |visits| && visits[j] == v;
        assert FrameSound(doc, v) && !Carries(visits[j], id);
      }
    }
  }

  lemma OnlyOneFirst(doc: seq<Node>, a: Path, b: Path, id: Text)
    requires FirstWithId(doc, a, id) && FirstWithId(doc, b, id)
    ensures a == b
  {
    if a != b {
      LessAsymmetric(a, b);
    }
  }

  // The visit that recorded a control, and what its frame says of the tree.
  lemma ControlVisited(doc: seq<Node>, control: ElementRef) returns (v: Frame)
    requires control in IndexFor(doc).controls
    ensures v in Visits(doc) && v.path == control.path && v.node == control.element
    ensures FrameSound(doc, v)
    ensures IsElement(doc, control.path) && AttributesAt(doc, control.path) == control.element.attributes
    ensures
      var index := IndexFor(doc);
      && control.path in index.disabledByAncestor && index.disabledByAncestor[control.path] == v.disabled
      && (control.path in index.nearestForm <==> v.form.Some?)
      && (v.form.Some? ==> index.nearestForm[control.path] == v.form.value)
  {
    var visits := Visits(doc);
    VisitsCorrect(doc);
    IndexLists(visits);
    IndexMaps(visits);
    v :| v in visits && IsControlFrame()(v) && v.path == control.path && v.node == control.element;
    assert FrameSound(doc, v);
  }

  lemma OwnerById(doc: seq<Node>, control: ElementRef, form: Path, id: Text)
    requires control in IndexFor(doc).controls && control.element.attributes.formId == Some(id)
    ensures IsElement(doc, control.path) && AttributesAt(doc, control.path) == control.element.attributes
    ensures Owns(doc, form, control.path) <==> OwnedBy(IndexFor(doc), form, control)
  {
    var index := IndexFor(doc);
    var v := ControlVisited(doc, control);
    if id != [] {
      FirstElementByIdCorrect(doc, id);
      if Owns(doc, form, control.path) && id in index.firstElementById {
        OnlyOneFirst(doc, form, index.firstElementById[id].path, id);
      }
    } else {
      VisitsCorrect(doc);
      IndexIds(Visits(doc), id);
    }
  }

  lemma OwnerByAncestor(doc: seq<Node>, control: ElementRef, form: Path)
    requires control in IndexFor(doc).controls && control.element.attributes.formId == None
    ensures IsElement(doc, control.path) && AttributesAt(doc, control.path) == control.element.attributes
    ensures Owns(doc, form, control.path) <==> OwnedBy(IndexFor(doc), form, control)
  {
    var v := ControlVisited(doc, control);
    if Owns(doc, form, control.path) && v.form.Some? {
    }
  }

  // The associated form is the form owner the standard defines, and the disabled state is the standard's.
  lemma OwnerCorrect(doc: seq<Node>, control: ElementRef, form: Path)
    requires control in IndexFor(doc).controls
    ensures IsElement(doc, control.path) && AttributesAt(doc, control.path) == control.element.attributes
    ensures Owns(doc, form, control.path) <==> OwnedBy(IndexFor(doc), form, control)
    ensures IsDisabled(control, IndexFor(doc))
      <==> control.element.attributes.disabled || UnderDisabledFieldset(doc, control.path)
  {
    var v := ControlVisited(doc, control);
    match control.element.attributes.formId
    case Some(id) => OwnerById(doc, control, form, id);
    case None => OwnerByAncestor(doc, control, form);
  }
}
