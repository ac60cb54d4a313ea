/**
 What the extraction records of each form of a page, told of the tree and the rules of the HTML Living Standard alone
 (packages/compiler/src/html-forms.ts, extractStaticHtmlFormDocument and the functions that make the evidence).
 */
module HtmlFormEvidence {
  import opened Wrappers
  import opened Texts
  import opened PlainObjects
  import opened Ranges
  import opened Sequences
  import opened HtmlTree
  import opened HtmlTraversal
  import opened HtmlOwnership
  import opened FormIndexModel
  import opened HtmlForms

  // ----- Elements -----

  // The state of the type attribute: an unknown or missing keyword makes an input a text field and a button a submit button.
  ghost function TypeState(tag: Tag, typ: Option<InputType>): InputType {
    if tag == InputTag && typ.Some? && typ.value != NoType then typ.value
    else if tag == InputTag then TextType
    else if tag == ButtonTag && (typ == Some(ButtonType) || typ == Some(ResetType)) then typ.value
    else if tag == ButtonTag then SubmitType
    else NoType
  }

  ghost function TypeAt(doc: seq<Node>, path: Path): InputType
    requires IsElement(doc, path)
  {
    TypeState(NodeAt(doc, path).value.tag, AttributesAt(doc, path).typ)
  }

  ghost predicate Enabled(doc: seq<Node>, path: Path)
    requires IsElement(doc, path)
  {
    !AttributesAt(doc, path).disabled && !UnderDisabledFieldset(doc, path)
  }

  ghost predicate Named(doc: seq<Node>, path: Path)
    requires IsElement(doc, path)
  {
    AttributesAt(doc, path).name.Some? && AttributesAt(doc, path).name.value != []
  }

  // An enabled field that is no button of any kind and no file.
  ghost predicate Sendable(doc: seq<Node>, path: Path)
    requires IsControl(doc, path)
  {
    && Enabled(doc, path) && !HasTag(doc, path, ButtonTag)
    && (HasTag(doc, path, InputTag) ==>
          && TypeAt(doc, path) != ButtonType && TypeAt(doc, path) != FileType && TypeAt(doc, path) != ImageType
          && TypeAt(doc, path) != ResetType && TypeAt(doc, path) != SubmitType)
  }

  ghost predicate SubmitButton(doc: seq<Node>, path: Path)
    requires IsElement(doc, path)
  {
    && (HasTag(doc, path, ButtonTag) || HasTag(doc, path, InputTag))
    && (TypeAt(doc, path) == SubmitType || (HasTag(doc, path, InputTag) && TypeAt(doc, path) == ImageType))
  }

  // Why a control cannot be checked statically.
  ghost predicate Uncheckable(doc: seq<Node>, path: Path, reason: UnsupportedReason)
    requires IsElement(doc, path)
  {
    var overrides := AttributesAt(doc, path).overridesAction || AttributesAt(doc, path).overridesMethod;
    match reason
    case SubmitterRouteOverride => SubmitButton(doc, path) && overrides
    case NamedSubmitter => SubmitButton(doc, path) && !overrides && Named(doc, path)
    case FileInput => HasTag(doc, path, InputTag) && TypeAt(doc, path) == FileType && Named(doc, path)
    case _ => false
  }

  // ----- Evidence -----

  ghost predicate PlaceOf(doc: seq<Node>, path: Path, attribute: Located, range: Range)
    requires IsElement(doc, path)
  {
    var ranges := AttributesAt(doc, path).ranges;
    (attribute in ranges && range == ranges[attribute]) || (attribute !in ranges && range == NodeAt(doc, path).value.range)
  }

  // An attribute without a value counts as absent.
  ghost predicate TextEvidence(doc: seq<Node>, path: Path, value: Option<Text>, attribute: Located, evidence: Evidence<Text>)
    requires IsElement(doc, path)
  {
    match evidence
    case Known(text, range) => value == Some(text) && text != [] && PlaceOf(doc, path, attribute, range)
    case Absent(Some(range)) => (value == None || value == Some([])) && PlaceOf(doc, path, attribute, range)
    case _ => false
  }

  ghost predicate KindEvidence(tag: Tag, kind: ControlKind) {
    || (tag == ButtonTag && kind == ButtonControl) || (tag == InputTag && kind == InputControl)
    || (tag == SelectTag && kind == SelectControl) || (tag == TextareaTag && kind == TextareaControl)
  }

  ghost predicate SuccessfulReads(doc: seq<Node>, path: Path, evidence: Evidence<bool>)
    requires IsControl(doc, path)
  {
    match evidence
    case Known(sendable, range) =>
      && sendable == Sendable(doc, path) && range == NodeAt(doc, path).value.range
      && (Enabled(doc, path) ==> forall reason :: !Uncheckable(doc, path, reason))
    case Unsupported(reason, range) =>
      Enabled(doc, path) && Uncheckable(doc, path, reason) && range == NodeAt(doc, path).value.range
    case _ => false
  }

  // The other place takes part in the form under the same name.
  ghost predicate SameName(doc: seq<Node>, form: Path, path: Path, other: Path)
    requires IsControl(doc, path)
  {
    && IsControl(doc, other) && Owns(doc, form, other) && Sendable(doc, other)
    && Named(doc, path) && AttributesAt(doc, other).name == AttributesAt(doc, path).name
  }

  ghost predicate RadioAt(doc: seq<Node>, path: Path) {
    HasTag(doc, path, InputTag) && TypeAt(doc, path) == RadioType
  }

  ghost predicate MultiplicityReads(doc: seq<Node>, form: Path, path: Path, m: Multiplicity)
    requires IsControl(doc, path)
  {
    var radios := forall other :: SameName(doc, form, path, other) ==> RadioAt(doc, other);
    var several := (HasTag(doc, path, SelectTag) && AttributesAt(doc, path).multiple)
      || exists other :: other != path && SameName(doc, form, path, other);
    m == if !Named(doc, path) || !Sendable(doc, path) then Scalar
         else if radios then MutuallyExclusive
         else if several then Repeated
         else Scalar
  }

  ghost predicate ControlEvidence(doc: seq<Node>, form: Path, path: Path, c: IndexedControl) {
    && IsControl(doc, path)
    && var range := NodeAt(doc, path).value.range;
    && c.range == range
    && TextEvidence(doc, path, AttributesAt(doc, path).name, LocatedName, c.name)
    && (c.controlKind.Known? && c.controlKind.range == range && KindEvidence(NodeAt(doc, path).value.tag, c.controlKind.value))
    && c.inputType == Known(TypeAt(doc, path), range)
    && c.multiple == Known(AttributesAt(doc, path).multiple, range)
    && (c.multiplicity.Known? && c.multiplicity.range == range && MultiplicityReads(doc, form, path, c.multiplicity.value))
    && SuccessfulReads(doc, path, c.successful)
  }

  // The method is recorded in ASCII lower case, whatever it is.
  ghost predicate MethodReads(doc: seq<Node>, form: Path, evidence: Evidence<Text>)
    requires IsElement(doc, form)
  {
    var value := AttributesAt(doc, form).verb;
    match evidence
    case Known(text, range) =>
      && value.Some? && |text| == |value.value| && PlaceOf(doc, form, LocatedMethod, range)
      && forall i :: 0 <= i < |text| ==>
           text[i] == if Codes("A")[0] <= value.value[i] <= Codes("Z")[0] then value.value[i] + 32 else value.value[i]
    case Absent(Some(range)) => value == None && PlaceOf(doc, form, LocatedMethod, range)
    case _ => false
  }

  ghost predicate RouteReads(doc: seq<Node>, form: Path, evidence: ActionEvidence)
    requires IsElement(doc, form)
  {
    var value := AttributesAt(doc, form).action;
    match evidence
    case ActionAttribute(Known(text, range)) => value == Some(text) && text != [] && PlaceOf(doc, form, LocatedAction, range)
    case ActionAttribute(_) => false
    case CurrentDocument(range) => (value == None || value == Some([])) && PlaceOf(doc, form, LocatedAction, range)
  }

  ghost predicate InTreeOrder(paths: seq<Path>) {
    forall i, j :: 0 <= i < j < |paths| ==> Less(paths[i], paths[j])
  }

  // The places of the controls a form owns, in tree order.
  ghost predicate OwnedPlaces(doc: seq<Node>, form: Path, paths: seq<Path>) {
    InTreeOrder(paths) && forall p :: p in paths <==> IsControl(doc, p) && Owns(doc, form, p)
  }

  ghost predicate ControlsRead(doc: seq<Node>, form: Path, paths: seq<Path>, controls: seq<IndexedControl>) {
    && OwnedPlaces(doc, form, paths) && |controls| == |paths|
    && forall i :: 0 <= i < |paths| ==> ControlEvidence(doc, form, paths[i], controls[i])
  }

  ghost predicate FormEvidence(doc: seq<Node>, form: Path, indexed: IndexedForm) {
    && HasTag(doc, form, FormTag) && indexed.range == NodeAt(doc, form).value.range
    && TextEvidence(doc, form, AttributesAt(doc, form).id, LocatedId, indexed.identity)
    && MethodReads(doc, form, indexed.verb) && RouteReads(doc, form, indexed.action)
    && exists paths :: ControlsRead(doc, form, paths, indexed.controls)
  }

  // ----- Proofs -----

  lemma {:induction false} FilterKeepsOrder(keep: ElementRef -> bool, refs: seq<ElementRef>)
    requires RefsOrdered(refs)
    ensures RefsOrdered(Filter(keep, refs))
  {
    if refs != [] {
      var rest, last := refs[..|refs| - 1], refs[|refs| - 1];
      FilterKeepsOrder(keep, rest);
      forall r | r in Filter(keep, rest) ensures Less(r.path, last.path) {
        var i :| 0 <= i < |rest| && rest[i] == r;
      }
    }
  }

  lemma TypeExact(doc: seq<Node>, ref: ElementRef)
    requires NodeAt(doc, ref.path) == Some(ref.element)
    ensures ControlInputType(ref.element) == TypeAt(doc, ref.path)
  {
  }

  lemma ReasonExact(doc: seq<Node>, ref: ElementRef)
    requires NodeAt(doc, ref.path) == Some(ref.element)
    ensures forall reason :: UnsupportedControlReason(ref.element) == Some(reason) <==> Uncheckable(doc, ref.path, reason)
  {
    TypeExact(doc, ref);
  }

  lemma CandidateExact(doc: seq<Node>, ref: ElementRef)
    requires ref in IndexFor(doc).controls
    ensures IsControl(doc, ref.path) && NodeAt(doc, ref.path) == Some(ref.element)
    ensures IsDisabled(ref, IndexFor(doc)) <==> !Enabled(doc, ref.path)
    ensures IsSuccessfulFieldCandidate(ref.element, IsDisabled(ref, IndexFor(doc))) <==> Sendable(doc, ref.path)
  {
    ControlsExact(doc);
    OwnerCorrect(doc, ref, []);
    TypeExact(doc, ref);
  }

  lemma SuccessfulExact(doc: seq<Node>, ref: ElementRef)
    requires ref in IndexFor(doc).controls
    ensures IsControl(doc, ref.path) && SuccessfulReads(doc, ref.path, SuccessfulEvidence(ref.element, IsDisabled(ref, IndexFor(doc))))
  {
    CandidateExact(doc, ref);
    ReasonExact(doc, ref);
  }

  // The name group of a control is what takes part in the form under the same name.
  lemma GroupExact(doc: seq<Node>, form: Path, ref: ElementRef, other: ElementRef)
    requires ref in IndexFor(doc).controls && NameOf(ref.element) != []
    ensures IsControl(doc, ref.path)
    ensures other in Group(IndexFor(doc), form, NameOf(ref.element), IndexFor(doc).controls) <==>
      NodeAt(doc, other.path) == Some(other.element) && SameName(doc, form, ref.path, other.path)
  {
    var index := IndexFor(doc);
    CandidateExact(doc, ref);
    ControlsExact(doc);
    if other in index.controls {
      CandidateExact(doc, other);
      OwnerCorrect(doc, other, form);
    }
  }

  lemma MultiplicityExact(doc: seq<Node>, form: Path, ref: ElementRef)
    requires ref in IndexFor(doc).controls && OwnedBy(IndexFor(doc), form, ref)
    ensures IsControl(doc, ref.path)
    ensures var index := IndexFor(doc);
      MultiplicityReads(doc, form, ref.path, ControlMultiplicity(ref.element, Group(index, form, NameOf(ref.element), index.controls),
                        IsSuccessfulFieldCandidate(ref.element, IsDisabled(ref, index))))
  {
    CandidateExact(doc, ref);
    if Named(doc, ref.path) && Sendable(doc, ref.path) {
      GroupSize(doc, form, ref);
      GroupRadios(doc, form, ref);
    }
  }

  lemma OwnInGroup(doc: seq<Node>, form: Path, ref: ElementRef)
    requires ref in IndexFor(doc).controls && OwnedBy(IndexFor(doc), form, ref)
    requires IsControl(doc, ref.path) && Named(doc, ref.path) && Sendable(doc, ref.path) && NodeAt(doc, ref.path) == Some(ref.element)
    ensures SameName(doc, form, ref.path, ref.path)
    ensures ref in Group(IndexFor(doc), form, NameOf(ref.element), IndexFor(doc).controls)
  {
    OwnerCorrect(doc, ref, form);
    GroupExact(doc, form, ref, ref);
  }

  lemma GroupSize(doc: seq<Node>, form: Path, ref: ElementRef)
    requires ref in IndexFor(doc).controls && OwnedBy(IndexFor(doc), form, ref)
    requires IsControl(doc, ref.path) && Named(doc, ref.path) && Sendable(doc, ref.path) && NodeAt(doc, ref.path) == Some(ref.element)
    ensures |Group(IndexFor(doc), form, NameOf(ref.element), IndexFor(doc).controls)| > 1 <==>
      exists other :: other != ref.path && SameName(doc, form, ref.path, other)
  {
    var index := IndexFor(doc);
    var group := Group(index, form, NameOf(ref.element), index.controls);
    OwnInGroup(doc, form, ref);
    ControlsExact(doc);
    FilterKeepsOrder(GroupTest(index, form, NameOf(ref.element)), index.controls);
    if |group| > 1 {
      var other := if group[0] == ref then group[1] else group[0];
      LessIrreflexive(ref.path);
      GroupExact(doc, form, ref, other);
      assert other.path != ref.path;
    }
    if other :| other != ref.path && SameName(doc, form, ref.path, other) {
      var found := ElementRef(other, NodeAt(doc, other).value);
      GroupExact(doc, form, ref, found);
      var i :| 0 <= i < |group| && group[i] == ref;
      var j :| 0 <= j < |group| && group[j] == found;
      assert i != j;
    }
  }

  lemma GroupRadios(doc: seq<Node>, form: Path, ref: ElementRef)
    requires ref in IndexFor(doc).controls && OwnedBy(IndexFor(doc), form, ref)
    requires IsControl(doc, ref.path) && Named(doc, ref.path) && Sendable(doc, ref.path) && NodeAt(doc, ref.path) == Some(ref.element)
    ensures var group := Group(IndexFor(doc), form, NameOf(ref.element), IndexFor(doc).controls);
      (group != [] && forall c :: c in group ==> IsRadio(c.element)) <==>
      forall other :: SameName(doc, form, ref.path, other) ==> RadioAt(doc, other)
  {
    var index := IndexFor(doc);
    var group := Group(index, form, NameOf(ref.element), index.controls);
    OwnInGroup(doc, form, ref);
    if forall c :: c in group ==> IsRadio(c.element) {
      forall other | SameName(doc, form, ref.path, other) ensures RadioAt(doc, other) {
        var found := ElementRef(other, NodeAt(doc, other).value);
        GroupExact(doc, form, ref, found);
        TypeExact(doc, found);
      }
    }
    if forall other :: SameName(doc, form, ref.path, other) ==> RadioAt(doc, other) {
      forall c | c in group ensures IsRadio(c.element) {
        GroupExact(doc, form, ref, c);
        TypeExact(doc, c);
      }
    }
  }

  lemma ControlExtracted(doc: seq<Node>, form: Path, ref: ElementRef)
    requires ref in IndexFor(doc).controls && OwnedBy(IndexFor(doc), form, ref)
    ensures ControlEvidence(doc, form, ref.path, ExtractedControl(IndexFor(doc), form, ref))
  {
    CandidateExact(doc, ref);
    TypeExact(doc, ref);
    SuccessfulExact(doc, ref);
    MultiplicityExact(doc, form, ref);
  }

  lemma ControlsExtracted(doc: seq<Node>, form: Path)
    ensures exists paths :: ControlsRead(doc, form, paths,
      Map(Extraction(IndexFor(doc), form), Owned(IndexFor(doc), form, IndexFor(doc).controls)))
  {
    var index := IndexFor(doc);
    var owned := Owned(index, form, index.controls);
    var controls := Map(Extraction(index, form), owned);
    var paths := seq(|owned|, i requires 0 <= i < |owned| => owned[i].path);
    ControlsExact(doc);
    FilterKeepsOrder(OwnedTest(index, form), index.controls);
    OwnedAre(doc, form, owned, paths);
    forall i | 0 <= i < |paths| ensures ControlEvidence(doc, form, paths[i], controls[i]) {
      assert owned[i] in owned;
      ControlExtracted(doc, form, owned[i]);
    }
    assert ControlsRead(doc, form, paths, controls);
  }

  lemma OwnedAre(doc: seq<Node>, form: Path, owned: seq<ElementRef>, paths: seq<Path>)
    requires owned == Owned(IndexFor(doc), form, IndexFor(doc).controls)
    requires |paths| == |owned| && forall i :: 0 <= i < |owned| ==> paths[i] == owned[i].path
    ensures forall p :: p in paths <==> IsControl(doc, p) && Owns(doc, form, p)
  {
    ControlsExact(doc);
    forall p ensures p in paths <==> IsControl(doc, p) && Owns(doc, form, p) {
      if p in paths {
        var i :| 0 <= i < |paths| && paths[i] == p;
        assert owned[i] in owned;
        OwnerCorrect(doc, owned[i], form);
      }
      if IsControl(doc, p) && Owns(doc, form, p) {
        var ref := ElementRef(p, NodeAt(doc, p).value);
        OwnerCorrect(doc, ref, form);
        assert ref in owned;
        var i :| 0 <= i < |owned| && owned[i] == ref;
        assert paths[i] == p;
      }
    }
  }

  lemma FormExtracted(doc: seq<Node>, form: ElementRef)
    requires form in IndexFor(doc).forms
    ensures FormEvidence(doc, form.path, ExtractedForm(IndexFor(doc), form))
  {
    FormsExact(doc);
    ControlsExtracted(doc, form.path);
    var verb := form.element.attributes.verb;
    if verb.Some? {
      var lower := AsciiLowercase(verb.value);
      assert forall i :: 0 <= i < |lower| ==> lower[i] == if 65 <= verb.value[i] <= 90 then verb.value[i] + 32 else verb.value[i];
    }
  }

  ghost predicate FormPlaces(doc: seq<Node>, places: seq<Path>) {
    InTreeOrder(places) && forall p :: p in places <==> HasTag(doc, p, FormTag)
  }

  ghost predicate FormsRead(doc: seq<Node>, places: seq<Path>, forms: seq<IndexedForm>) {
    FormPlaces(doc, places) && |forms| == |places| && forall k :: 0 <= k < |places| ==> FormEvidence(doc, places[k], forms[k])
  }

  lemma PlacesExact(doc: seq<Node>, places: seq<Path>)
    requires |places| == |IndexFor(doc).forms|
    requires forall i :: 0 <= i < |places| ==> places[i] == IndexFor(doc).forms[i].path
    ensures FormPlaces(doc, places)
  {
    var forms := IndexFor(doc).forms;
    FormsExact(doc);
    forall p ensures p in places <==> HasTag(doc, p, FormTag) {
      if HasTag(doc, p, FormTag) {
        var i :| 0 <= i < |forms| && forms[i] == ElementRef(p, NodeAt(doc, p).value);
        assert places[i] == p;
      }
      if p in places {
        var i :| 0 <= i < |places| && places[i] == p;
        assert forms[i] in forms;
      }
    }
  }

  // The extraction gives the evidence of each form of the page, in tree order, and of nothing else.
  lemma ExtractedExactly(doc: seq<Node>)
    ensures exists places :: FormsRead(doc, places, FormsOf(doc))
  {
    var forms := IndexFor(doc).forms;
    var places := seq(|forms|, i requires 0 <= i < |forms| => forms[i].path);
    PlacesExact(doc, places);
    forall k | 0 <= k < |places| ensures FormEvidence(doc, places[k], FormsOf(doc)[k]) {
      FormExtracted(doc, forms[k]);
    }
    assert FormsRead(doc, places, FormsOf(doc));
  }
}
