/** Inputs that show where a clean static check does not reach: the conditions of the acceptance theorems are needed. */
module FormWitnesses {
  import opened Wrappers
  import opened Texts
  import opened Ranges
  import opened Sequences
  import opened HtmlTree
  import opened HtmlTraversal
  import opened HtmlOwnership
  import opened FormIndexModel
  import opened HtmlForms
  import opened FormFacts
  import opened Contracts
  import opened FormRule
  import opened FormRuleExact
  import opened ContractValidation
  import opened DecodeConformance
  import opened PlainObjects
  import opened RuntimeForm
  import opened FormAcceptance

  const ORIGIN := Range(Position(0, 0), Position(0, 0))
  const FORM_ID: Text := [102]
  const ROUTE: Text := [47, 97]
  const TOKEN: Text := Codes("token")
  const NOTE: Text := Codes("note")
  const PROPERTY: Text := Codes("n")
  const CONSUMER: Text := Codes("guard")

  function FormElement(children: seq<Node>): ElementNode {
    Element(FormTag, NO_ATTRIBUTES.(id := Some(FORM_ID), verb := Some(POST_VERB), action := Some(ROUTE)), ORIGIN, children)
  }

  function Input(typ: InputType, name: Option<Text>): ElementNode {
    Element(InputTag, NO_ATTRIBUTES.(typ := Some(typ), name := name), ORIGIN, [])
  }

  function FormFrame(children: seq<Node>): Frame {
    Frame([0], FormElement(children), false, None)
  }

  function FormRef(children: seq<Node>): ElementRef {
    ElementRef([0], FormElement(children))
  }

  predicate IsPlainInput(node: Node) {
    && node.Element? && node.tag == InputTag && node.children == []
    && node.attributes.id == None && node.attributes.formId == None && !node.attributes.disabled
  }

  // A page that is one form around inputs without children.
  predicate Inputs(children: seq<Node>) {
    forall i :: 0 <= i < |children| ==> IsPlainInput(children[i])
  }

  function InputFrame(children: seq<Node>, i: nat): Frame
    requires i < |children|
  {
    Frame([0, i], children[i], false, Some(FormRef(children)))
  }

  lemma {:induction false} InputsWalk(children: seq<Node>, i: nat)
    requires i <= |children| && Inputs(children)
    ensures WalkFrom(children, i, ContextOf(FormFrame(children)))
         == seq(|children| - i, k requires 0 <= k < |children| - i => InputFrame(children, i + k))
    decreases |children| - i
  {
    if i < |children| {
      InputsWalk(children, i + 1);
      var context := ContextOf(FormFrame(children));
      var child := ChildFrame(context, children, i);
      assert [0] + [i] == [0, i];
      assert child == InputFrame(children, i);
      assert Walk(child) == [child] + WalkFrom([], 0, ContextOf(child));
    }
  }

  lemma PageVisits(children: seq<Node>)
    requires Inputs(children)
    ensures Visits([FormElement(children)])
         == [FormFrame(children)] + seq(|children|, k requires 0 <= k < |children| => InputFrame(children, k))
  {
    var doc: seq<Node> := [FormElement(children)];
    var frame := ChildFrame(ROOT_CONTEXT, doc, 0);
    assert [] + [0] == [0];
    assert frame == FormFrame(children);
    InputsWalk(children, 0);
    assert WalkFrom(doc, 1, ROOT_CONTEXT) == [];
    var below := WalkFrom(children, 0, ContextOf(frame));
    assert below == seq(|children|, k requires 0 <= k < |children| => InputFrame(children, k));
    assert WalkFrom(doc, 0, ROOT_CONTEXT) == Walk(frame) + [];
  }

  function InputRef(children: seq<Node>, i: nat): ElementRef
    requires i < |children| && Inputs(children)
  {
    ElementRef([0, i], children[i])
  }

  function InputRefs(children: seq<Node>, n: nat): seq<ElementRef>
    requires n <= |children| && Inputs(children)
  {
    seq(n, k requires 0 <= k < n => InputRef(children, k))
  }

  function PageFrames(children: seq<Node>, n: nat): seq<Frame>
    requires n <= |children|
  {
    [FormFrame(children)] + seq(n, k requires 0 <= k < n => InputFrame(children, k))
  }

  lemma InputRecorded(index: ElementIndex, children: seq<Node>, i: nat)
    requires i < |children| && Inputs(children)
    ensures Record(index, InputFrame(children, i)).controls == index.controls + [InputRef(children, i)]
    ensures Record(index, InputFrame(children, i)).forms == index.forms
  {
    assert IsPlainInput(children[i]);
  }

  lemma NextFrame(children: seq<Node>, n: nat)
    requires 0 < n <= |children| && Inputs(children)
    ensures PageFrames(children, n) == PageFrames(children, n - 1) + [InputFrame(children, n - 1)]
    ensures InputRefs(children, n) == InputRefs(children, n - 1) + [InputRef(children, n - 1)]
    ensures InputFrame(children, n - 1).node.Element?
  {
    assert IsPlainInput(children[n - 1]);
  }

  lemma {:induction false} InputsIndex(children: seq<Node>, n: nat)
    requires n <= |children| && Inputs(children)
    ensures AllElements(PageFrames(children, n))
    ensures IndexOf(PageFrames(children, n)).controls == InputRefs(children, n)
    ensures IndexOf(PageFrames(children, n)).forms == [FormRef(children)]
  {
    var visits := PageFrames(children, n);
    if n == 0 {
      assert visits == [FormFrame(children)] && visits[..0] == [];
    } else {
      InputsIndex(children, n - 1);
      NextFrame(children, n);
      assert visits[..|visits| - 1] == PageFrames(children, n - 1);
      InputRecorded(IndexOf(PageFrames(children, n - 1)), children, n - 1);
    }
  }

  lemma PageLists(children: seq<Node>)
    requires Inputs(children)
    ensures IndexFor([FormElement(children)]).controls == InputRefs(children, |children|)
    ensures IndexFor([FormElement(children)]).forms == [FormRef(children)]
  {
    PageVisits(children);
    InputsIndex(children, |children|);
    assert Visits([FormElement(children)]) == PageFrames(children, |children|);
  }

  lemma PageControl(children: seq<Node>, k: nat)
    requires Inputs(children) && k < |children|
    ensures OwnedBy(IndexFor([FormElement(children)]), [0], InputRef(children, k))
    ensures !IsDisabled(InputRef(children, k), IndexFor([FormElement(children)]))
  {
    var doc: seq<Node> := [FormElement(children)];
    assert IsPlainInput(children[k]);
    PageMaps(children, k);
  }

  lemma VisitMapped(visits: seq<Frame>, v: Frame)
    requires AllElements(visits) && TreeOrdered(visits) && v in visits && IsFormControlTag(v.node.tag) && v.form.Some?
    ensures v.path in IndexOf(visits).disabledByAncestor && IndexOf(visits).disabledByAncestor[v.path] == v.disabled
    ensures v.path in IndexOf(visits).nearestForm && IndexOf(visits).nearestForm[v.path] == v.form.value
  {
    IndexMaps(visits);
  }

  lemma PageVisited(children: seq<Node>, k: nat)
    requires Inputs(children) && k < |children|
    ensures InputFrame(children, k) in Visits([FormElement(children)])
  {
    PageVisits(children);
    assert Visits([FormElement(children)])[k + 1] == InputFrame(children, k);
  }

  lemma PageMaps(children: seq<Node>, k: nat)
    requires Inputs(children) && k < |children|
    ensures
      var index := IndexFor([FormElement(children)]);
      && [0, k] in index.disabledByAncestor && !index.disabledByAncestor[[0, k]]
      && [0, k] in index.nearestForm && index.nearestForm[[0, k]] == FormRef(children)
  {
    VisitsCorrect([FormElement(children)]);
    PageVisited(children, k);
    assert IsPlainInput(children[k]);
    VisitMapped(Visits([FormElement(children)]), InputFrame(children, k));
  }

  // The page of a form around plain inputs: the form owns every input, and none is disabled.
  lemma PageIndex(children: seq<Node>)
    requires Inputs(children)
    ensures IndexFor([FormElement(children)]).controls == InputRefs(children, |children|)
    ensures IndexFor([FormElement(children)]).forms == [FormRef(children)]
    ensures forall k: nat :: k < |children| ==>
      && OwnedBy(IndexFor([FormElement(children)]), [0], InputRef(children, k))
      && !IsDisabled(InputRef(children, k), IndexFor([FormElement(children)]))
  {
    PageLists(children);
    forall k: nat | k < |children|
      ensures OwnedBy(IndexFor([FormElement(children)]), [0], InputRef(children, k))
      ensures !IsDisabled(InputRef(children, k), IndexFor([FormElement(children)]))
    {
      PageControl(children, k);
    }
  }

  lemma PageOwned(children: seq<Node>)
    requires Inputs(children)
    ensures Owned(IndexFor([FormElement(children)]), [0], InputRefs(children, |children|)) == InputRefs(children, |children|)
  {
    PageIndex(children);
    forall c | c in InputRefs(children, |children|) ensures OwnedBy(IndexFor([FormElement(children)]), [0], c) {
      var k :| 0 <= k < |children| && InputRef(children, k) == c;
    }
    FilterAll(OwnedTest(IndexFor([FormElement(children)]), [0]), InputRefs(children, |children|));
  }

  lemma {:induction false} FilterAll<T(!new)>(keep: T -> bool, s: seq<T>)
    requires forall x :: x in s ==> keep(x)
    ensures Filter(keep, s) == s
  {
    if s != [] {
      FilterAll(keep, s[..|s| - 1]);
      assert keep(s[|s| - 1]);
      assert s == s[..|s| - 1] + [s[|s| - 1]];
    }
  }

  // A contract of one optional text property, bound to a field of the given name.
  function Action(name: Text, ignored: seq<IgnoredField>): FeatureAction {
    var binding := Binding(name, [PROPERTY], Single(TextDecoder(true, false)));
    FeatureAction([97], ROUTE, [112], FORM_ID, None,
                  InputContract(map[PROPERTY := ScalarProperty(StringSchema(None, None))], [], [binding], Some(ignored)))
  }

  // What the schema of a feature contract asks of an input (packages/contract/spec/feature-contract-v1.schema.json).
  ghost predicate SchemaAllows(input: InputContract) {
    && input.properties != map[] && input.bindings != []
    && (forall b :: b in input.bindings ==> b.name != [] && b.path != [] && forall p :: p in b.path ==> p != [])
    && (forall f :: f in IgnoredFields(input) ==> f.name != [] && f.consumer != [])
  }

  lemma ActionSound(name: Text, ignored: seq<IgnoredField>)
    requires name != [] && (ignored == [] || (|ignored| == 1 && ignored[0].name !in [[], name] && ignored[0].consumer != []))
    ensures ContractSound(Action(name, ignored).input)
  {
    var input := Action(name, ignored).input;
    assert input.bindings[0].path == [PROPERTY];
    PropertyPlain();
    assert PROPERTY in input.properties;
  }

  lemma PropertyPlain()
    ensures PROPERTY != [] && PROPERTY !in RESERVED_NAMES
  {
    assert |PROPERTY| == 1 && forall p :: p in RESERVED_NAMES ==> |p| > 1;
  }

  lemma PageFact(children: seq<Node>)
    requires Inputs(children)
    ensures var form := ExtractedForm(IndexFor([FormElement(children)]), FormRef(children));
      && form.identity == Known(FORM_ID, ORIGIN) && VerbValue(form.verb) == Success(POST_VERB)
      && ActionValue(form.action) == Success(LiteralAction(ROUTE))
      && IndexesForm([FormElement(children)], FormRef(children), form)
      && form.controls == Map(Extraction(IndexFor([FormElement(children)]), [0]), InputRefs(children, |children|))
  {
    PageIndex(children);
    PageOwned(children);
    assert AsciiUppercase(AsciiLowercase(POST_VERB)) == POST_VERB;
  }

  lemma PageOrder(children: seq<Node>)
    requires Inputs(children)
    ensures ControlsInTreeOrder([FormElement(children)], InputRefs(children, |children|))
    ensures forall c :: c in InputRefs(children, |children|) ==>
      IsElement([FormElement(children)], c.path) && TakesPart([FormElement(children)], [0], c)
  {
    var doc: seq<Node> := [FormElement(children)];
    PageIndex(children);
    ControlsExact(doc);
    forall c | c in InputRefs(children, |children|) ensures IsElement(doc, c.path) && TakesPart(doc, [0], c) {
      OwnerCorrect(doc, c, [0]);
      var k :| 0 <= k < |children| && InputRef(children, k) == c;
      assert OwnedBy(IndexFor(doc), [0], InputRef(children, k));
    }
  }

  // What is wrong with a static check that is clean for a sound contract: a submission of the form that the runtime refuses
  // whatever its limits.
  ghost predicate CleanYetRefused(children: seq<Node>, action: FeatureAction, submitter: Option<Path>, parts: seq<seq<Entry>>)
    requires Inputs(children)
  {
    && ContractSound(action.input) && PageClean(children, action)
    && PageSubmits(children, submitter, parts) && Refused(action.input, Flatten(parts))
  }

  ghost predicate ContractSound(input: InputContract) {
    InputSound(input) && NoReservedProperty(input) && SchemaAllows(input)
  }

  ghost predicate PageSubmits(children: seq<Node>, submitter: Option<Path>, parts: seq<seq<Entry>>)
    requires Inputs(children)
  {
    IsSubmission([FormElement(children)], [0], submitter, InputRefs(children, |children|), parts)
  }

  ghost predicate Refused(input: InputContract, entries: seq<Entry>) {
    forall limits :: !Accepts(limits, input, entries)
  }

  // The static check of the page finds nothing.
  ghost predicate PageClean(children: seq<Node>, action: FeatureAction)
    requires Inputs(children)
  {
    var doc: seq<Node> := [FormElement(children)];
    var form := ExtractedForm(IndexFor(doc), FormRef(children));
    IndexesForm(doc, FormRef(children), form) && Interpret(form).Success? && Clean(action, Interpret(form).value)
  }

  // ----- The fields of such a page -----

  const HIDDEN := OtherType(Codes("hidden"))

  // A text or hidden input with a name, or an image button without one.
  predicate IsField(node: Node) {
    IsPlainInput(node) && node.attributes.typ in {Some(TextType), Some(HIDDEN)} && IsNamed(node)
  }

  predicate IsImage(node: Node) {
    && IsPlainInput(node) && node.attributes.typ == Some(ImageType) && !IsNamed(node)
    && !node.attributes.overridesAction && !node.attributes.overridesMethod
  }

  predicate Fields(children: seq<Node>) {
    Inputs(children) && forall i :: 0 <= i < |children| ==> IsField(children[i]) || IsImage(children[i])
  }

  function PageControls(children: seq<Node>): seq<IndexedControl>
    requires Inputs(children)
  {
    ExtractedForm(IndexFor([FormElement(children)]), FormRef(children)).controls
  }

  ghost predicate RecordedAs(control: IndexedControl, element: ElementNode) {
    && control.successful == Known(IsField(element), element.range)
    && (forall name :: Submits(control, name) <==> IsField(element) && NameOf(element) == name)
    && (control.name.Known? || control.name.Absent?)
    && SuccessfulControl(control)
       == Success(ControlFact(InputControl, ControlInputType(element), element.attributes.multiple, element.range))
  }

  lemma PlainControl(element: ElementNode, group: seq<ElementRef>)
    requires IsField(element) || IsImage(element)
    ensures RecordedAs(IndexedControlOf(element, false, group), element)
  {
  }

  lemma ControlAt(children: seq<Node>, i: nat)
    requires Fields(children) && i < |children|
    ensures |PageControls(children)| == |children| && RecordedAs(PageControls(children)[i], children[i])
  {
    PageFact(children);
    PageIndex(children);
    var index, r := IndexFor([FormElement(children)]), InputRef(children, i);
    assert PageControls(children)[i] == ExtractedControl(index, [0], r);
    assert IsField(children[i]) || IsImage(children[i]);
    PlainControl(children[i], Group(index, [0], NameOf(r.element), index.controls));
  }

  lemma {:induction false} CollectSupported(controls: seq<IndexedControl>)
    requires forall c :: c in controls ==> c.successful.Known? && SuccessfulControl(c).Success?
    requires forall c :: c in controls ==> c.name.Known? || c.name.Absent?
    ensures Collect(controls).Success? && Collect(controls).value.unsupported == []
  {
    if controls != [] {
      CollectSupported(controls[..|controls| - 1]);
    }
  }

  lemma PageLength(children: seq<Node>)
    requires Inputs(children)
    ensures |PageControls(children)| == |children|
  {
    PageFact(children);
  }

  lemma FactSource(controls: seq<IndexedControl>, name: Text, fact: ControlFact) returns (i: nat)
    requires fact in Submitting(controls, name)
    ensures i < |controls| && Submits(controls[i], name) && FactOrDefault(controls[i]) == fact
  {
    var kept := Filter(SubmitsUnder(name), controls);
    var j :| 0 <= j < |kept| && Map(FactOrDefault, kept)[j] == fact;
    assert kept[j] in kept;
    i :| 0 <= i < |controls| && controls[i] == kept[j];
  }

  lemma FieldFactOf(control: IndexedControl, element: ElementNode, name: Text)
    requires RecordedAs(control, element) && Submits(control, name)
    ensures IsField(element) && NameOf(element) == name
    ensures FactOrDefault(control).kind == InputControl && FactOrDefault(control).inputType in {TextType, HIDDEN}
  {
  }

  // A fact the page submits under a name is that of an input of the name.
  lemma SubmittedFact(children: seq<Node>, name: Text, fact: ControlFact) returns (i: nat)
    requires Fields(children) && fact in Submitting(PageControls(children), name)
    ensures i < |children| && IsField(children[i]) && NameOf(children[i]) == name
    ensures fact.kind == InputControl && fact.inputType in {TextType, HIDDEN}
  {
    i := FactSource(PageControls(children), name, fact);
    PageLength(children);
    ControlAt(children, i);
    FieldFactOf(PageControls(children)[i], children[i], name);
  }

  ghost predicate PlainBinding(action: FeatureAction) {
    && action.path == ROUTE && action.input.required == [] && |action.input.bindings| == 1
    && action.input.bindings[0].decode == Single(TextDecoder(true, false))
  }

  // Every name the page submits is accepted, and the bound one by a lone input.
  ghost predicate PageSuits(children: seq<Node>, action: FeatureAction)
    requires Fields(children) && PlainBinding(action)
  {
    && (forall i :: 0 <= i < |children| && IsField(children[i]) ==> IsAccepted(action.input, NameOf(children[i])))
    && |Submitting(PageControls(children), action.input.bindings[0].name)| <= 1
  }

  lemma FieldAccepts(children: seq<Node>, action: FeatureAction, fact: FormFact, field: FieldFact)
    requires Fields(children) && PlainBinding(action) && PageSuits(children, action)
    requires field in fact.fields && field.controls != [] && field.controls == Submitting(PageControls(children), field.name)
    ensures IsAccepted(action.input, field.name)
    ensures field.name == action.input.bindings[0].name ==> Suits(field.controls, action.input.bindings[0].decode)
  {
    var i := SubmittedFact(children, field.name, field.controls[0]);
    assert IsAccepted(action.input, NameOf(children[i]));
    forall c | c in field.controls ensures !IsMultiple(c) {
      var _ := SubmittedFact(children, field.name, c);
    }
  }

  ghost predicate FieldsFrom(children: seq<Node>, fields: seq<FieldFact>)
    requires Inputs(children)
  {
    forall f :: f in fields ==> f.controls != [] && f.controls == Submitting(PageControls(children), f.name)
  }

  lemma BoundSuited(children: seq<Node>, action: FeatureAction, fact: FormFact)
    requires Fields(children) && PlainBinding(action) && PageSuits(children, action) && FieldsFrom(children, fact.fields)
    ensures BindingSuited(action, fact, 0)
  {
    var field := FieldOf(fact.fields, action.input.bindings[0].name);
    if field.Some? {
      FieldAccepts(children, action, fact, field.value);
    }
  }

  lemma FieldsAccepted(children: seq<Node>, action: FeatureAction, fact: FormFact)
    requires Fields(children) && PlainBinding(action) && PageSuits(children, action) && FieldsFrom(children, fact.fields)
    ensures forall f :: f in fact.fields ==> IsAccepted(action.input, f.name)
  {
    forall f | f in fact.fields ensures IsAccepted(action.input, f.name) {
      FieldAccepts(children, action, fact, f);
    }
  }

  lemma PlainAgrees(action: FeatureAction, fact: FormFact)
    requires PlainBinding(action) && BindingSuited(action, fact, 0)
    requires fact.verb == POST_VERB && fact.action == LiteralAction(ROUTE) && fact.unsupported == []
    requires forall f :: f in fact.fields ==> IsAccepted(action.input, f.name)
    ensures Agrees(action, fact)
  {
  }

  // The check of a page is clean if every name it submits is accepted and the bound one is that of a lone input.
  lemma CleanPage(children: seq<Node>, action: FeatureAction)
    requires Fields(children) && PlainBinding(action) && PageSuits(children, action)
    ensures PageClean(children, action)
  {
    var controls, form := PageControls(children), ExtractedForm(IndexFor([FormElement(children)]), FormRef(children));
    PageFact(children);
    forall c | c in controls
      ensures c.successful.Known? && SuccessfulControl(c).Success? && (c.name.Known? || c.name.Absent?)
    {
      var i :| 0 <= i < |controls| && controls[i] == c;
      PageLength(children);
      ControlAt(children, i);
    }
    CollectSupported(controls);
    InterpretGroups(form);
    InterpretCollects(form);
    FieldsAccepted(children, action, Interpret(form).value);
    BoundSuited(children, action, Interpret(form).value);
    PlainAgrees(action, Interpret(form).value);
    CleanExactly(action, Interpret(form).value);
  }

  // ----- Submissions that are refused -----

  lemma {:induction false} FilterNone<T(!new)>(keep: T -> bool, s: seq<T>)
    requires forall x :: x in s ==> !keep(x)
    ensures Filter(keep, s) == []
  {
    if s != [] {
      FilterNone(keep, s[..|s| - 1]);
    }
  }

  lemma LoneKept<T(!new)>(keep: T -> bool, s: seq<T>)
    requires s != [] && forall i :: 1 <= i < |s| ==> !keep(s[i])
    ensures |Filter(keep, s)| <= 1
  {
    FilterNone(keep, s[1..]);
    FilterConcat(keep, s[..1], s[1..]);
    assert s == s[..1] + s[1..];
    FilterAppend(keep, [], s[0]);
    assert s[..1] == [] + [s[0]];
  }

  // Only the first input has the name.
  lemma LoneField(children: seq<Node>, name: Text)
    requires Fields(children) && children != []
    requires forall i :: 1 <= i < |children| && IsField(children[i]) ==> NameOf(children[i]) != name
    ensures |Submitting(PageControls(children), name)| <= 1
  {
    var controls, keep := PageControls(children), SubmitsUnder(name);
    PageLength(children);
    forall i | 1 <= i < |controls| ensures !keep(controls[i]) {
      ControlAt(children, i);
    }
    LoneKept(keep, controls);
  }

  // What an input adds: one entry under its name, or the coordinates if it is the image button that submits the form.
  ghost predicate InputAdds(input: Node, submits: bool, part: seq<Entry>) {
    if IsField(input) then !submits && |part| == 1 && part[0].0 == NameOf(input)
    else IsImage(input) && part == if submits then [(X_COORDINATE, []), (Y_COORDINATE, [])] else []
  }

  lemma InputMayAdd(children: seq<Node>, submitter: Option<Path>, i: nat, part: seq<Entry>)
    requires Fields(children) && i < |children| && IsElement([FormElement(children)], [0, i])
    requires TakesPart([FormElement(children)], [0], InputRef(children, i))
    requires InputAdds(children[i], submitter == Some([0, i]), part)
    ensures MayAdd([FormElement(children)], [0], submitter, InputRef(children, i), part)
    ensures submitter == Some([0, i]) ==> IsSubmitter(children[i])
    ensures !IsRadio(children[i])
  {
  }

  lemma InputsSubmit(children: seq<Node>, submitter: Option<Path>, parts: seq<seq<Entry>>)
    requires Fields(children) && |parts| == |children|
    requires forall i :: 0 <= i < |children| ==> InputAdds(children[i], submitter == Some([0, i]), parts[i])
    ensures PageSubmits(children, submitter, parts)
  {
    var doc: seq<Node>, controls := [FormElement(children)], InputRefs(children, |children|);
    PageOrder(children);
    forall i | 0 <= i < |controls|
      ensures MayAdd(doc, [0], submitter, controls[i], parts[i]) && !IsRadio(controls[i].element)
      ensures submitter == Some(controls[i].path) ==> IsSubmitter(controls[i].element)
    {
      assert controls[i] in controls && controls[i] == InputRef(children, i);
      InputMayAdd(children, submitter, i, parts[i]);
    }
  }

  const NOTE_INPUT: Node := Input(TextType, Some(NOTE))
  const TOKEN_INPUT: Node := Input(HIDDEN, Some(TOKEN))
  const IMAGE_INPUT: Node := Input(ImageType, None)
  const RESERVED_INPUT: Node := Input(TextType, Some(CONSTRUCTOR))

  lemma BoundAccepted(name: Text, ignored: seq<IgnoredField>)
    ensures IsAccepted(Action(name, ignored).input, name)
    ensures forall f :: f in ignored ==> IsAccepted(Action(name, ignored).input, f.name)
    ensures forall other :: other != name ==> BindingOf(Action(name, ignored).input.bindings, other).None?
  {
    var bindings := Action(name, ignored).input.bindings;
    assert bindings[..0] == [];
  }

  // Under a merely ignored name, two values are refused.
  lemma TwiceRefused(input: InputContract, entries: seq<Entry>, name: Text)
    requires BindingOf(input.bindings, name).None? && |ValuesOf(entries, name)| >= 2
    ensures Refused(input, entries)
  {
    NamesExact(entries, name);
    assert !FieldAccepted(input, name, FieldsOf(entries)[name]);
  }

  lemma UnknownRefused(input: InputContract, entries: seq<Entry>, name: Text)
    requires !IsAccepted(input, name) && |ValuesOf(entries, name)| >= 1
    ensures Refused(input, entries)
  {
    NamesExact(entries, name);
    assert !FieldAccepted(input, name, FieldsOf(entries)[name]);
  }

  lemma ReservedRefused(input: InputContract, entries: seq<Entry>, name: Text)
    requires name in RESERVED_NAMES && |ValuesOf(entries, name)| >= 1
    ensures Refused(input, entries)
  {
    NamesExact(entries, name);
    var e :| e in entries && e.0 == name;
    forall limits ensures !Accepts(limits, input, entries) {
      assert !EntryReadable(limits, e);
    }
  }

  ghost predicate OneFieldPage(children: seq<Node>, name: Text, ignored: seq<IgnoredField>) {
    && Fields(children) && children != [] && IsField(children[0]) && NameOf(children[0]) == name
    && (forall i :: 1 <= i < |children| && IsField(children[i]) ==> ignored != [] && NameOf(children[i]) == ignored[0].name)
    && name != [] && (ignored == [] || (|ignored| == 1 && ignored[0].name !in [[], name] && ignored[0].consumer != []))
  }

  lemma OneFieldSuits(children: seq<Node>, name: Text, ignored: seq<IgnoredField>)
    requires OneFieldPage(children, name, ignored)
    ensures PageSuits(children, Action(name, ignored))
  {
    LoneField(children, name);
    BoundAccepted(name, ignored);
    assert ignored != [] ==> ignored[0] in ignored;
  }

  // The contract is sound and the check is clean.
  lemma FieldsClean(children: seq<Node>, name: Text, ignored: seq<IgnoredField>)
    requires OneFieldPage(children, name, ignored)
    ensures ContractSound(Action(name, ignored).input)
    ensures PageClean(children, Action(name, ignored))
  {
    ActionSound(name, ignored);
    OneFieldSuits(children, name, ignored);
    CleanPage(children, Action(name, ignored));
  }

  lemma TokensRefused(input: InputContract, name: Text, ignored: Text, parts: seq<seq<Entry>>)
    requires BindingOf(input.bindings, ignored).None?
    requires parts == [[(name, [])], [(ignored, [])], [(ignored, [])]]
    ensures Refused(input, Flatten(parts))
  {
    FlattenUpdate(parts, 2, ignored);
    FlattenUpdate(parts[2 := []], 1, ignored);
    SingleValue((ignored, []), ignored);
    TwiceRefused(input, Flatten(parts), ignored);
  }

  lemma CoordinatesRefused(input: InputContract, name: Text, parts: seq<seq<Entry>>)
    requires !IsAccepted(input, X_COORDINATE)
    requires parts == [[(name, [])], [(X_COORDINATE, []), (Y_COORDINATE, [])]]
    ensures Refused(input, Flatten(parts))
  {
    FlattenUpdate(parts, 1, X_COORDINATE);
    CoordinateValues(parts[1], X_COORDINATE);
    UnknownRefused(input, Flatten(parts), X_COORDINATE);
  }

  lemma NameRefused(input: InputContract, name: Text, parts: seq<seq<Entry>>)
    requires name in RESERVED_NAMES && parts == [[(name, [])]]
    ensures Refused(input, Flatten(parts))
  {
    FlattenUpdate(parts, 0, name);
    SingleValue((name, []), name);
    ReservedRefused(input, Flatten(parts), name);
  }

  lemma TwoTokens(children: seq<Node>)
    requires children == [NOTE_INPUT, TOKEN_INPUT, TOKEN_INPUT]
    ensures Fields(children)
    ensures forall i :: 0 <= i < 3 ==> IsField(children[i]) && NameOf(children[i]) == if i == 0 then NOTE else TOKEN
  {
  }

  lemma TokensSubmit(children: seq<Node>, parts: seq<seq<Entry>>)
    requires children == [NOTE_INPUT, TOKEN_INPUT, TOKEN_INPUT]
    requires parts == [[(NOTE, [])], [(TOKEN, [])], [(TOKEN, [])]]
    ensures Inputs(children) && PageSubmits(children, None, parts)
  {
    TwoTokens(children);
    InputsSubmit(children, None, parts);
  }

  lemma TokensClean(children: seq<Node>, ignored: seq<IgnoredField>)
    requires children == [NOTE_INPUT, TOKEN_INPUT, TOKEN_INPUT] && ignored == [IgnoredField(TOKEN, CONSUMER)]
    ensures ContractSound(Action(NOTE, ignored).input) && Inputs(children) && PageClean(children, Action(NOTE, ignored))
    ensures BindingOf(Action(NOTE, ignored).input.bindings, TOKEN).None?
  {
    assert |NOTE| != |TOKEN|;
    TwoTokens(children);
    FieldsClean(children, NOTE, ignored);
    BoundAccepted(NOTE, ignored);
  }

  // Two hidden inputs of one ignored name: the report is clean, and the runtime refuses what the form submits.
  lemma RepeatedIgnoredName(children: seq<Node>, parts: seq<seq<Entry>>)
    requires children == [NOTE_INPUT, TOKEN_INPUT, TOKEN_INPUT]
    requires parts == [[(NOTE, [])], [(TOKEN, [])], [(TOKEN, [])]]
    ensures Inputs(children) && CleanYetRefused(children, Action(NOTE, [IgnoredField(TOKEN, CONSUMER)]), None, parts)
  {
    var ignored := [IgnoredField(TOKEN, CONSUMER)];
    TokensClean(children, ignored);
    TokensSubmit(children, parts);
    TokensRefused(Action(NOTE, ignored).input, NOTE, TOKEN, parts);
  }

  lemma ImageSubmits(children: seq<Node>, parts: seq<seq<Entry>>)
    requires children == [NOTE_INPUT, IMAGE_INPUT]
    requires parts == [[(NOTE, [])], [(X_COORDINATE, []), (Y_COORDINATE, [])]]
    ensures Inputs(children) && PageSubmits(children, Some([0, 1]), parts)
  {
    assert [0, 0] != [0, 1];
    InputsSubmit(children, Some([0, 1]), parts);
  }

  lemma ImageClean(children: seq<Node>)
    requires children == [NOTE_INPUT, IMAGE_INPUT]
    ensures ContractSound(Action(NOTE, []).input) && Inputs(children) && PageClean(children, Action(NOTE, []))
    ensures !IsAccepted(Action(NOTE, []).input, X_COORDINATE)
  {
    assert |NOTE| != |X_COORDINATE|;
    FieldsClean(children, NOTE, []);
    BoundAccepted(NOTE, []);
  }

  // An image button without a name: the report is clean, and the runtime refuses the coordinates it submits.
  lemma ImageButtonRefused(children: seq<Node>, parts: seq<seq<Entry>>)
    requires children == [NOTE_INPUT, IMAGE_INPUT]
    requires parts == [[(NOTE, [])], [(X_COORDINATE, []), (Y_COORDINATE, [])]]
    ensures Inputs(children) && CleanYetRefused(children, Action(NOTE, []), Some([0, 1]), parts)
  {
    ImageClean(children);
    ImageSubmits(children, parts);
    CoordinatesRefused(Action(NOTE, []).input, NOTE, parts);
  }

  lemma ReservedSubmits(children: seq<Node>, parts: seq<seq<Entry>>)
    requires children == [RESERVED_INPUT] && parts == [[(CONSTRUCTOR, [])]]
    ensures Inputs(children) && PageSubmits(children, None, parts)
  {
    InputsSubmit(children, None, parts);
  }

  lemma ReservedClean(children: seq<Node>)
    requires children == [RESERVED_INPUT]
    ensures ContractSound(Action(CONSTRUCTOR, []).input) && Inputs(children) && PageClean(children, Action(CONSTRUCTOR, []))
  {
    FieldsClean(children, CONSTRUCTOR, []);
  }

  // A text field named constructor, bound to a property: the report is clean, and the runtime refuses the reserved name.
  lemma ReservedNameRefused(children: seq<Node>, parts: seq<seq<Entry>>)
    requires children == [RESERVED_INPUT] && parts == [[(CONSTRUCTOR, [])]]
    ensures Inputs(children) && CleanYetRefused(children, Action(CONSTRUCTOR, []), None, parts)
  {
    ReservedClean(children);
    ReservedSubmits(children, parts);
    NameRefused(Action(CONSTRUCTOR, []).input, CONSTRUCTOR, parts);
  }
}
