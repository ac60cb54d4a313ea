/**
 The headline theorem of the form pipeline: what the static check on an HTML form says about every request the form
 can submit. Entry lists follow section 4.10.21.4 of the HTML Living Standard.
 */
module FormAcceptance {
  import opened Wrappers
  import opened Texts
  import opened Sequences
  import opened HtmlTree
  import opened HtmlTraversal
  import opened HtmlOwnership
  import opened FormIndexModel
  import opened HtmlForms
  import opened FormFacts
  import opened Contracts
  import opened FormRule
  import opened FormRuleExact
  import opened FormAgreement
  import opened RuntimeForm

  const X_COORDINATE: Text := [120]
  const Y_COORDINATE: Text := [121]

  ghost predicate ControlsInTreeOrder(doc: seq<Node>, controls: seq<ElementRef>) {
    && RefsOrdered(controls)
    && forall path, element :: ElementRef(path, element) in controls <==> IsControl(doc, path) && NodeAt(doc, path) == Some(element)
  }

  // The control takes part in the submission of a form at all.
  ghost predicate TakesPart(doc: seq<Node>, form: Path, control: ElementRef)
    requires IsElement(doc, control.path)
  {
    && Owns(doc, form, control.path)
    && !control.element.attributes.disabled && !UnderDisabledFieldset(doc, control.path)
  }

  predicate IsButton(element: ElementNode) {
    element.tag == ButtonTag || (element.tag == InputTag && ControlInputType(element) in {ButtonType, ImageType, ResetType, SubmitType})
  }

  // How many entries a control may add under its name: files and multiple selects any number, everything else one.
  predicate AddsMany(element: ElementNode) {
    || (element.tag == SelectTag && element.attributes.multiple)
    || (element.tag == InputTag && ControlInputType(element) == FileType)
  }

  predicate NamedEntries(element: ElementNode, part: seq<Entry>) {
    && (part != [] ==> IsNamed(element))
    && (forall e :: e in part ==> e.0 == NameOf(element))
    && (|part| <= 1 || AddsMany(element))
  }

  // An image button without a name that submits the form adds its coordinates as x and y.
  predicate AddsCoordinates(submitter: Option<Path>, control: ElementRef) {
    && submitter == Some(control.path) && control.element.tag == InputTag
    && ControlInputType(control.element) == ImageType && !IsNamed(control.element)
  }

  // What one control may add to the entry list of a form that is submitted by the given button, if any.
  ghost predicate MayAdd(doc: seq<Node>, form: Path, submitter: Option<Path>, control: ElementRef, part: seq<Entry>)
    requires IsElement(doc, control.path)
  {
    if !TakesPart(doc, form, control) then part == []
    else if AddsCoordinates(submitter, control) then
      |part| == 2 && part[0].0 == X_COORDINATE && part[1].0 == Y_COORDINATE
    else if IsButton(control.element) && submitter != Some(control.path) then part == []
    else if control.element.tag == InputTag && ControlInputType(control.element) == ImageType then
      // Named coordinates: name.x and name.y.
      && |part| == 2
      && part[0].0 == NameOf(control.element) + [46] + X_COORDINATE
      && part[1].0 == NameOf(control.element) + [46] + Y_COORDINATE
    else NamedEntries(control.element, part)
  }

  function Flatten(parts: seq<seq<Entry>>): seq<Entry> {
    if parts == [] then [] else Flatten(parts[..|parts| - 1]) + parts[|parts| - 1]
  }

  ghost predicate SameRadioGroup(doc: seq<Node>, form: Path, a: ElementRef, b: ElementRef)
    requires IsElement(doc, a.path) && IsElement(doc, b.path)
  {
    && Owns(doc, form, a.path) && Owns(doc, form, b.path)
    && IsRadio(a.element) && IsRadio(b.element) && NameOf(a.element) == NameOf(b.element)
  }

  // Of the radio buttons of one form and name, at most one is checked.
  ghost predicate RadiosExclusive(doc: seq<Node>, form: Path, controls: seq<ElementRef>, parts: seq<seq<Entry>>)
    requires |parts| == |controls| && forall c :: c in controls ==> IsElement(doc, c.path)
  {
    forall i, j :: 0 <= i < j < |controls| && SameRadioGroup(doc, form, controls[i], controls[j]) ==>
      parts[i] == [] || parts[j] == []
  }

  // The entry lists a form can submit.
  ghost predicate IsSubmission(doc: seq<Node>, form: Path, submitter: Option<Path>,
                               controls: seq<ElementRef>, parts: seq<seq<Entry>>)
  {
    && ControlsInTreeOrder(doc, controls) && |parts| == |controls|
    && (forall c :: c in controls ==> IsElement(doc, c.path))
    && (forall c :: c in controls && submitter == Some(c.path) ==> IsSubmitter(c.element))
    && (forall i :: 0 <= i < |controls| ==> MayAdd(doc, form, submitter, controls[i], parts[i]))
    && RadiosExclusive(doc, form, controls, parts)
  }

  // ----- The conditions for acceptance -----

  // The entries are accepted exactly if they are within the limits, no name in them is reserved, and every name in them that
  // is only ignored carries one value.
  ghost predicate AcceptsExactly(limits: Limits, input: InputContract, entries: seq<Entry>) {
    Accepts(limits, input, entries) <==> WithinLimits(limits, entries) && NoneReserved(entries) && IgnoredOnce(input, entries)
  }

  predicate WithinLimits(limits: Limits, entries: seq<Entry>) {
    |entries| <= limits.maxFields && forall e :: e in entries ==> IsShort(limits, e)
  }

  predicate NoneReserved(entries: seq<Entry>) {
    forall e :: e in entries ==> e.0 !in RESERVED_NAMES
  }

  // Every name that is merely ignored carries one value.
  ghost predicate IgnoredOnce(input: InputContract, entries: seq<Entry>) {
    forall name :: name in Names(entries) && BindingOf(input.bindings, name).None? ==> |ValuesOf(entries, name)| == 1
  }

  // ----- The indexed form against the name groups -----

  lemma SubmitsInGroup(index: ElementIndex, form: Path, control: ElementRef, name: Text)
    requires OwnedBy(index, form, control)
    requires ExtractedControl(index, form, control).successful.Known?
    ensures Submits(ExtractedControl(index, form, control), name) <==> InGroup(index, form, name, control)
  {
  }

  // The fact the rule sees for a control of a name group.
  function GroupFact(control: ElementRef): ControlFact {
    ControlFact(KindOf(control.element.tag), ControlInputType(control.element), control.element.attributes.multiple, control.element.range)
  }

  function After<T, U>(keep: U -> bool, f: T -> U): T -> bool {
    (x: T) => keep(f(x))
  }

  lemma {:induction false} FilterMapped<T(!new), U(!new)>(f: T -> U, keep: U -> bool, s: seq<T>)
    ensures Filter(keep, Map(f, s)) == Map(f, Filter(After(keep, f), s))
  {
    if s != [] {
      var before, last := s[..|s| - 1], s[|s| - 1];
      FilterMapped(f, keep, before);
      assert Map(f, s)[..|s| - 1] == Map(f, before);
      assert Map(f, s)[|s| - 1] == f(last);
    }
  }

  lemma {:induction false} FilterTwice<T(!new)>(p: T -> bool, q: T -> bool, r: T -> bool, s: seq<T>)
    requires forall x :: x in s ==> (r(x) <==> p(x) && q(x))
    ensures Filter(q, Filter(p, s)) == Filter(r, s)
  {
    if s != [] {
      var before, last := s[..|s| - 1], s[|s| - 1];
      FilterTwice(p, q, r, before);
      FilterAppend(q, Filter(p, before), last);
    }
  }

  // The form index lists the controls of a form in any order; canonical serialisation sorts them by range.
  ghost predicate IndexesForm(doc: seq<Node>, form: ElementRef, indexed: IndexedForm) {
    && form in IndexFor(doc).forms
    && indexed.(controls := []) == ExtractedForm(IndexFor(doc), form).(controls := [])
    && multiset(indexed.controls) == multiset(ExtractedForm(IndexFor(doc), form).controls)
  }

  lemma FilterSameElements<T(!new)>(keep: T -> bool, a: seq<T>, b: seq<T>)
    requires multiset(a) == multiset(b)
    ensures multiset(Filter(keep, a)) == multiset(Filter(keep, b))
    ensures |Filter(keep, a)| == |Filter(keep, b)|
  {
    FilterMultiset(keep, a);
    FilterMultiset(keep, b);
    assert |multiset(Filter(keep, a))| == |multiset(Filter(keep, b))|;
  }

  lemma GroupOfOwned(index: ElementIndex, form: Path, name: Text)
    requires forall c :: c in Owned(index, form, index.controls) ==> ExtractedControl(index, form, c).successful.Known?
    ensures Filter(SubmitsUnder(name), Map(Extraction(index, form), Owned(index, form, index.controls)))
         == Map(Extraction(index, form), Group(index, form, name, index.controls))
  {
    var f, keep := Extraction(index, form), SubmitsUnder(name);
    var owned := Owned(index, form, index.controls);
    var both := After(keep, f);
    FilterMapped(f, keep, owned);
    forall c | c in index.controls
      ensures GroupTest(index, form, name)(c) <==> OwnedTest(index, form)(c) && both(c)
    {
      if OwnedBy(index, form, c) {
        assert c in owned;
        SubmitsInGroup(index, form, c, name);
      }
    }
    FilterTwice(OwnedTest(index, form), both, GroupTest(index, form, name), index.controls);
  }

  // The fields of the interpreted form are the name groups the extractor computed.
  lemma SubmittingIsGroup(doc: seq<Node>, form: ElementRef, indexed: IndexedForm, name: Text)
    requires IndexesForm(doc, form, indexed)
    requires forall c :: c in indexed.controls ==> c.successful.Known?
    ensures |Submitting(indexed.controls, name)| == |Group(IndexFor(doc), form.path, name, IndexFor(doc).controls)|
    ensures forall r :: r in Group(IndexFor(doc), form.path, name, IndexFor(doc).controls) ==>
      GroupFact(r) in Submitting(indexed.controls, name)
  {
    var index := IndexFor(doc);
    var group, kept := Group(index, form.path, name, index.controls), Filter(SubmitsUnder(name), indexed.controls);
    GroupKept(doc, form, indexed, name);
    assert |multiset(kept)| == |multiset(Map(Extraction(index, form.path), group))|;
    GroupFactsSubmit(index, form.path, name, group, kept);
  }

  // And every field is the fact of a control of its group.
  lemma SubmittingFromGroup(doc: seq<Node>, form: ElementRef, indexed: IndexedForm, name: Text, fact: ControlFact) returns (r: ElementRef)
    requires IndexesForm(doc, form, indexed) && fact in Submitting(indexed.controls, name)
    requires forall c :: c in indexed.controls ==> c.successful.Known?
    ensures r in Group(IndexFor(doc), form.path, name, IndexFor(doc).controls) && GroupFact(r) == fact
  {
    GroupKept(doc, form, indexed, name);
    var index := IndexFor(doc);
    r := FactFrom(index, form.path, name, Group(index, form.path, name, index.controls),
                  Filter(SubmitsUnder(name), indexed.controls), fact);
  }

  lemma FactFrom(index: ElementIndex, form: Path, name: Text, group: seq<ElementRef>, kept: seq<IndexedControl>, fact: ControlFact)
    returns (r: ElementRef)
    requires multiset(kept) == multiset(Map(Extraction(index, form), group)) && fact in Map(FactOrDefault, kept)
    requires forall c :: c in group ==> InGroup(index, form, name, c)
    ensures r in group && GroupFact(r) == fact
  {
    var extracted := Map(Extraction(index, form), group);
    var j :| 0 <= j < |kept| && Map(FactOrDefault, kept)[j] == fact;
    var i := SameElementAt(kept, extracted, j);
    r := group[i];
    FactOfGroup(index, form, name, r);
  }

  lemma SameElementAt<T>(a: seq<T>, b: seq<T>, j: nat) returns (i: nat)
    requires multiset(a) == multiset(b) && j < |a|
    ensures i < |b| && b[i] == a[j]
  {
    assert a[j] in multiset(b);
    i :| 0 <= i < |b| && b[i] == a[j];
  }

  lemma FactOfGroup(index: ElementIndex, form: Path, name: Text, r: ElementRef)
    requires InGroup(index, form, name, r)
    ensures FactOrDefault(ExtractedControl(index, form, r)) == GroupFact(r)
  {
  }

  lemma GroupKept(doc: seq<Node>, form: ElementRef, indexed: IndexedForm, name: Text)
    requires IndexesForm(doc, form, indexed) && forall c :: c in indexed.controls ==> c.successful.Known?
    ensures multiset(Filter(SubmitsUnder(name), indexed.controls))
         == multiset(Map(Extraction(IndexFor(doc), form.path), Group(IndexFor(doc), form.path, name, IndexFor(doc).controls)))
  {
    var index := IndexFor(doc);
    var owned := Owned(index, form.path, index.controls);
    var extracted := Map(Extraction(index, form.path), owned);
    forall c | c in owned ensures ExtractedControl(index, form.path, c).successful.Known? {
      var i :| 0 <= i < |owned| && owned[i] == c;
      assert extracted[i] in multiset(indexed.controls);
    }
    GroupOfOwned(index, form.path, name);
    FilterSameElements(SubmitsUnder(name), indexed.controls, extracted);
  }

  lemma GroupFactsSubmit(index: ElementIndex, form: Path, name: Text, group: seq<ElementRef>, kept: seq<IndexedControl>)
    requires multiset(kept) == multiset(Map(Extraction(index, form), group))
    requires forall r :: r in group ==> InGroup(index, form, name, r)
    ensures forall r :: r in group ==> GroupFact(r) in Map(FactOrDefault, kept)
  {
    var extracted := Map(Extraction(index, form), group);
    forall r | r in group ensures GroupFact(r) in Map(FactOrDefault, kept) {
      var i :| 0 <= i < |group| && group[i] == r;
      var j := SameElementAt(extracted, kept, i);
      FactOfGroup(index, form, name, r);
      assert Map(FactOrDefault, kept)[j] == GroupFact(r);
    }
  }

  // ----- What an empty report means -----

  ghost predicate Clean(action: FeatureAction, fact: FormFact) {
    ActionReports(action, fact) == Success([])
  }

  // The control shapes a decoder that takes one value is compatible with.
  predicate SingleShape(controls: seq<ControlFact>) {
    || (|controls| <= 1 && forall c :: c in controls ==> !(c.kind == SelectControl && c.multiple))
    || (forall c :: c in controls ==> IsRadioFact(c))
  }

  lemma SuitedIsSingle(controls: seq<ControlFact>, decoder: Decoder)
    requires decoder.Single? && Suits(controls, decoder)
    ensures SingleShape(controls)
  {
  }

  // What a clean report says about every name the form submits under.
  lemma CleanNames(doc: seq<Node>, form: ElementRef, indexed: IndexedForm, action: FeatureAction, fact: FormFact, name: Text)
    requires IndexesForm(doc, form, indexed) && Interpret(indexed) == Success(fact) && Clean(action, fact)
    ensures forall c :: c in indexed.controls ==> c.successful.Known?
    ensures Submitting(indexed.controls, name) != [] ==> IsAccepted(action.input, name)
    ensures forall b :: b in action.input.bindings && b.name == name && b.decode.Single? ==>
      SingleShape(Submitting(indexed.controls, name))
  {
    CleanExactly(action, fact);
    InterpretGroups(indexed);
    forall b | b in action.input.bindings && b.name == name && b.decode.Single?
      ensures SingleShape(Submitting(indexed.controls, name))
    {
      if Submitting(indexed.controls, name) != [] {
        var i :| 0 <= i < |action.input.bindings| && action.input.bindings[i] == b;
        assert BindingSuited(action, fact, i);
        SuitedIsSingle(FieldOf(fact.fields, name).value.controls, b.decode);
      }
    }
  }

  // ----- Counting the entries of a name -----

  lemma {:induction false} ValuesConcat(a: seq<Entry>, b: seq<Entry>, name: Text)
    ensures ValuesOf(a + b, name) == ValuesOf(a, name) + ValuesOf(b, name)
  {
    if b == [] {
      assert a + b == a;
    } else {
      assert (a + b)[..|a + b| - 1] == a + b[..|b| - 1];
      ValuesConcat(a, b[..|b| - 1], name);
    }
  }

  lemma {:induction false} ValuesBound(part: seq<Entry>, name: Text)
    ensures |ValuesOf(part, name)| <= |part|
    ensures ValuesOf(part, name) != [] ==> exists e :: e in part && e.0 == name
  {
    if part != [] {
      ValuesBound(part[..|part| - 1], name);
      assert part[|part| - 1] in part;
    }
  }

  ghost predicate SomePartNames(parts: seq<seq<Entry>>, name: Text) {
    exists i :: 0 <= i < |parts| && ValuesOf(parts[i], name) != []
  }

  lemma {:induction false} FlattenNames(parts: seq<seq<Entry>>, name: Text)
    ensures ValuesOf(Flatten(parts), name) != [] <==> SomePartNames(parts, name)
  {
    if parts != [] {
      var before, last := parts[..|parts| - 1], parts[|parts| - 1];
      FlattenNames(before, name);
      ValuesConcat(Flatten(before), last, name);
      if SomePartNames(before, name) {
        var i :| 0 <= i < |before| && ValuesOf(before[i], name) != [];
        assert ValuesOf(parts[i], name) != [];
      }
      if SomePartNames(parts, name) && ValuesOf(last, name) == [] {
        var i :| 0 <= i < |parts| && ValuesOf(parts[i], name) != [];
        assert ValuesOf(before[i], name) != [];
      }
    }
  }

  // At most one part names it, and that one once.
  ghost predicate NamedOnce(parts: seq<seq<Entry>>, name: Text) {
    && (forall i :: 0 <= i < |parts| ==> |ValuesOf(parts[i], name)| <= 1)
    && (forall i, j :: 0 <= i < j < |parts| ==> ValuesOf(parts[i], name) == [] || ValuesOf(parts[j], name) == [])
  }

  lemma {:induction false} FlattenOnce(parts: seq<seq<Entry>>, name: Text)
    requires NamedOnce(parts, name)
    ensures |ValuesOf(Flatten(parts), name)| <= 1
  {
    if parts != [] {
      var before, last := parts[..|parts| - 1], parts[|parts| - 1];
      FlattenOnce(before, name);
      FlattenNames(before, name);
      ValuesConcat(Flatten(before), last, name);
      if ValuesOf(last, name) != [] {
        forall i | 0 <= i < |before| ensures ValuesOf(before[i], name) == [] {
          assert before[i] == parts[i];
        }
      }
    }
  }

  // ----- From the tree to the name groups -----

  ghost predicate NoCoordinates(submitter: Option<Path>, controls: seq<ElementRef>) {
    forall c :: c in controls ==> !AddsCoordinates(submitter, c)
  }

  // Every supported control that adds an entry under a name is in the extractor's group of that name.
  lemma PartInGroup(doc: seq<Node>, form: ElementRef, indexed: IndexedForm, submitter: Option<Path>,
                    control: ElementRef, part: seq<Entry>, name: Text)
    requires IndexesForm(doc, form, indexed) && forall c :: c in indexed.controls ==> c.successful.Known?
    requires IsControl(doc, control.path) && NodeAt(doc, control.path) == Some(control.element)
    requires submitter == Some(control.path) ==> IsSubmitter(control.element)
    requires MayAdd(doc, form.path, submitter, control, part) && !AddsCoordinates(submitter, control)
    requires ValuesOf(part, name) != []
    ensures control in Group(IndexFor(doc), form.path, name, IndexFor(doc).controls)
    ensures NamedEntries(control.element, part) && TakesPart(doc, form.path, control)
  {
    var index := IndexFor(doc);
    ControlsExact(doc);
    OwnerCorrect(doc, control, form.path);
    ValuesBound(part, name);
    assert TakesPart(doc, form.path, control);
    var owned := Owned(index, form.path, index.controls);
    assert control in owned;
    SupportedControl(doc, form, indexed, control);
    assert UnsupportedControlReason(control.element) == None;
  }

  lemma SupportedControl(doc: seq<Node>, form: ElementRef, indexed: IndexedForm, control: ElementRef)
    requires IndexesForm(doc, form, indexed) && forall c :: c in indexed.controls ==> c.successful.Known?
    requires control in Owned(IndexFor(doc), form.path, IndexFor(doc).controls)
    ensures ExtractedControl(IndexFor(doc), form.path, control).successful.Known?
  {
    var index := IndexFor(doc);
    var owned := Owned(index, form.path, index.controls);
    var i :| 0 <= i < |owned| && owned[i] == control;
    assert ExtractedForm(index, form).controls[i] in multiset(indexed.controls);
  }

  lemma OneInGroup<T>(s: seq<T>, a: T, b: T)
    requires a in s && b in s && a != b
    ensures |s| >= 2
  {
    var i :| 0 <= i < |s| && s[i] == a;
    var j :| 0 <= j < |s| && s[j] == b;
  }

  // A name bound to a decoder of one value is submitted at most once by a clean form.
  lemma SingleNamedOnce(doc: seq<Node>, form: ElementRef, indexed: IndexedForm, submitter: Option<Path>,
                        controls: seq<ElementRef>, parts: seq<seq<Entry>>, name: Text)
    requires IndexesForm(doc, form, indexed) && forall c :: c in indexed.controls ==> c.successful.Known?
    requires IsSubmission(doc, form.path, submitter, controls, parts) && NoCoordinates(submitter, controls)
    requires SingleShape(Submitting(indexed.controls, name))
    ensures NamedOnce(parts, name)
  {
    var group := Group(IndexFor(doc), form.path, name, IndexFor(doc).controls);
    SubmittingIsGroup(doc, form, indexed, name);
    forall i | 0 <= i < |controls| && ValuesOf(parts[i], name) != []
      ensures controls[i] in group && |ValuesOf(parts[i], name)| <= 1 && parts[i] != []
    {
      assert controls[i] in controls && ElementRef(controls[i].path, controls[i].element) in controls;
      PartInGroup(doc, form, indexed, submitter, controls[i], parts[i], name);
      ValuesBound(parts[i], name);
    }
    forall i, j | 0 <= i < j < |parts| && ValuesOf(parts[i], name) != [] ensures ValuesOf(parts[j], name) == [] {
      if ValuesOf(parts[j], name) != [] {
        LessIrreflexive(controls[i].path);
        assert Less(controls[i].path, controls[j].path);
        OneInGroup(group, controls[i], controls[j]);
        BothRadios(doc, form.path, group, Submitting(indexed.controls, name), name, controls[i], controls[j]);
      }
    }
  }

  lemma BothRadios(doc: seq<Node>, form: Path, group: seq<ElementRef>, facts: seq<ControlFact>, name: Text, a: ElementRef, b: ElementRef)
    requires SingleShape(facts) && |facts| == |group| >= 2 && forall r :: r in group ==> GroupFact(r) in facts
    requires group == Group(IndexFor(doc), form, name, IndexFor(doc).controls)
    requires a in group && b in group
    ensures IsElement(doc, a.path) && IsElement(doc, b.path) && SameRadioGroup(doc, form, a, b)
  {
    assert GroupFact(a) in facts && GroupFact(b) in facts;
    ControlsExact(doc);
    OwnerCorrect(doc, a, form);
    OwnerCorrect(doc, b, form);
  }

  lemma {:induction false} FlattenMember(parts: seq<seq<Entry>>, entry: Entry)
    ensures entry in Flatten(parts) ==> exists i :: 0 <= i < |parts| && entry in parts[i]
  {
    if parts != [] {
      var before, last := parts[..|parts| - 1], parts[|parts| - 1];
      FlattenMember(before, entry);
      if i :| 0 <= i < |before| && entry in before[i] {
        assert entry in parts[i];
      }
      if entry in last {
        assert entry in parts[|parts| - 1];
      }
    }
  }

  lemma PartNamed(doc: seq<Node>, form: Path, submitter: Option<Path>, control: ElementRef, part: seq<Entry>, e: Entry)
    requires IsElement(doc, control.path) && MayAdd(doc, form, submitter, control, part) && e in part
    ensures e.0 != []
  {
  }

  // No entry of a submission has an empty name.
  lemma EntriesNamed(doc: seq<Node>, form: Path, submitter: Option<Path>, controls: seq<ElementRef>, parts: seq<seq<Entry>>)
    requires IsSubmission(doc, form, submitter, controls, parts)
    ensures forall e :: e in Flatten(parts) ==> e.0 != []
  {
    forall e | e in Flatten(parts) ensures e.0 != [] {
      FlattenMember(parts, e);
      var i :| 0 <= i < |parts| && e in parts[i];
      assert MayAdd(doc, form, submitter, controls[i], parts[i]);
      PartNamed(doc, form, submitter, controls[i], parts[i], e);
    }
  }

  lemma ReadableExactly(limits: Limits, entries: seq<Entry>)
    requires forall e :: e in entries ==> e.0 != []
    ensures |entries| <= limits.maxFields && AllReadable(limits, entries) <==> WithinLimits(limits, entries) && NoneReserved(entries)
  {
    if WithinLimits(limits, entries) && NoneReserved(entries) {
      forall e | e in entries ensures EntryReadable(limits, e) {
      }
    }
    if AllReadable(limits, entries) {
      forall e | e in entries ensures e.0 !in RESERVED_NAMES && IsShort(limits, e) {
        assert EntryReadable(limits, e);
      }
    }
  }

  // The fields of a clean form's submission are accepted exactly when every merely ignored name carries one value.
  lemma CleanFields(doc: seq<Node>, form: ElementRef, indexed: IndexedForm, action: FeatureAction, fact: FormFact,
                    submitter: Option<Path>, controls: seq<ElementRef>, parts: seq<seq<Entry>>)
    requires IndexesForm(doc, form, indexed) && Interpret(indexed) == Success(fact) && Clean(action, fact)
    requires IsSubmission(doc, form.path, submitter, controls, parts) && NoCoordinates(submitter, controls)
    ensures RawFieldsAccepted(action.input, FieldsOf(Flatten(parts))) <==> IgnoredOnce(action.input, Flatten(parts))
  {
    var entries := Flatten(parts);
    var fields := FieldsOf(entries);
    forall name | name in fields
      ensures FieldAccepted(action.input, name, fields[name]) <==>
        (BindingOf(action.input.bindings, name).None? ==> |ValuesOf(entries, name)| == 1)
    {
      NamesExact(entries, name);
      SubmittedName(doc, form, indexed, action, fact, submitter, controls, parts, name);
    }
  }

  // A clean form whose submission adds no coordinates is accepted by the runtime exactly when it is within the limits, no
  // name in it is reserved, and every name in it that is only ignored carries one value.
  lemma CleanFormAccepted(doc: seq<Node>, form: ElementRef, indexed: IndexedForm, action: FeatureAction, fact: FormFact,
                          limits: Limits, submitter: Option<Path>, controls: seq<ElementRef>, parts: seq<seq<Entry>>)
    requires IndexesForm(doc, form, indexed) && Interpret(indexed) == Success(fact) && Clean(action, fact)
    requires IsSubmission(doc, form.path, submitter, controls, parts) && NoCoordinates(submitter, controls)
    ensures AcceptsExactly(limits, action.input, Flatten(parts))
  {
    EntriesNamed(doc, form.path, submitter, controls, parts);
    ReadableExactly(limits, Flatten(parts));
    CleanFields(doc, form, indexed, action, fact, submitter, controls, parts);
  }

  lemma SubmittedName(doc: seq<Node>, form: ElementRef, indexed: IndexedForm, action: FeatureAction, fact: FormFact,
                      submitter: Option<Path>, controls: seq<ElementRef>, parts: seq<seq<Entry>>, name: Text)
    requires IndexesForm(doc, form, indexed) && Interpret(indexed) == Success(fact) && Clean(action, fact)
    requires IsSubmission(doc, form.path, submitter, controls, parts) && NoCoordinates(submitter, controls)
    requires ValuesOf(Flatten(parts), name) != []
    ensures IsAccepted(action.input, name) && Submitting(indexed.controls, name) != []
    ensures var binding := BindingOf(action.input.bindings, name);
      binding.Some? && binding.value.decode.Single? ==> |ValuesOf(Flatten(parts), name)| == 1
  {
    CleanNames(doc, form, indexed, action, fact, name);
    FlattenNames(parts, name);
    var i :| 0 <= i < |parts| && ValuesOf(parts[i], name) != [];
    assert controls[i] in controls && ElementRef(controls[i].path, controls[i].element) in controls;
    PartInGroup(doc, form, indexed, submitter, controls[i], parts[i], name);
    SubmittingIsGroup(doc, form, indexed, name);
    assert Submitting(indexed.controls, name) != [];
    var binding := BindingOf(action.input.bindings, name);
    if binding.Some? && binding.value.decode.Single? {
      SingleNamedOnce(doc, form, indexed, submitter, controls, parts, name);
      FlattenOnce(parts, name);
    }
  }

  // ----- A submission that adds coordinates -----

  lemma {:induction false} FlattenUpdate(parts: seq<seq<Entry>>, k: nat, name: Text)
    requires k < |parts|
    ensures |ValuesOf(Flatten(parts), name)| == |ValuesOf(Flatten(parts[k := []]), name)| + |ValuesOf(parts[k], name)|
  {
    var before, last := parts[..|parts| - 1], parts[|parts| - 1];
    var others := parts[k := []];
    ValuesConcat(Flatten(before), last, name);
    ValuesConcat(Flatten(others[..|parts| - 1]), others[|parts| - 1], name);
    if k == |parts| - 1 {
      assert others[..|parts| - 1] == before;
    } else {
      FlattenUpdate(before, k, name);
      assert others[..|parts| - 1] == before[k := []];
    }
  }

  lemma CoordinateValues(part: seq<Entry>, name: Text)
    requires |part| == 2 && part[0].0 == X_COORDINATE && part[1].0 == Y_COORDINATE
    ensures |ValuesOf(part, name)| == if name == X_COORDINATE || name == Y_COORDINATE then 1 else 0
  {
    assert part == [part[0]] + [part[1]];
    ValuesConcat([part[0]], [part[1]], name);
    SingleValue(part[0], name);
    SingleValue(part[1], name);
  }

  lemma SingleValue(entry: Entry, name: Text)
    ensures ValuesOf([entry], name) == if entry.0 == name then [entry.1] else []
  {
    var one: seq<Entry> := [entry];
    assert one[..0] == [];
  }

  // Leaving the coordinates out gives a submission without a submitter.
  lemma WithoutCoordinates(doc: seq<Node>, form: Path, controls: seq<ElementRef>, parts: seq<seq<Entry>>, k: nat)
    requires k < |controls| && IsSubmission(doc, form, Some(controls[k].path), controls, parts)
    requires AddsCoordinates(Some(controls[k].path), controls[k])
    ensures IsSubmission(doc, form, None, controls, parts[k := []]) && NoCoordinates(None, controls)
  {
    var others := parts[k := []];
    forall i | 0 <= i < |controls| ensures MayAdd(doc, form, None, controls[i], others[i]) {
      if i != k {
        LessIrreflexive(controls[i].path);
        assert controls[i].path != controls[k].path;
        assert MayAdd(doc, form, Some(controls[k].path), controls[i], parts[i]);
      }
    }
  }

  // The runtime accepts a coordinate when its name is bound to a repeat decoder, or when it is bound or ignored
  // and no control of the form was submitted under the same name.
  ghost predicate CoordinateFits(action: FeatureAction, others: seq<Entry>, name: Text) {
    var binding := BindingOf(action.input.bindings, name);
    || (binding.Some? && binding.value.decode.Repeat?)
    || (IsAccepted(action.input, name) && ValuesOf(others, name) == [])
  }

  // Every merely ignored name but the coordinates carries one value.
  ghost predicate OthersOnce(input: InputContract, entries: seq<Entry>) {
    forall name :: name in Names(entries) && name != X_COORDINATE && name != Y_COORDINATE && BindingOf(input.bindings, name).None? ==>
      |ValuesOf(entries, name)| == 1
  }

  lemma CoordinateCount(doc: seq<Node>, form: Path, controls: seq<ElementRef>, parts: seq<seq<Entry>>, k: nat, name: Text)
    requires k < |controls| && IsSubmission(doc, form, Some(controls[k].path), controls, parts)
    requires AddsCoordinates(Some(controls[k].path), controls[k]) && TakesPart(doc, form, controls[k])
    ensures |ValuesOf(Flatten(parts), name)| == |ValuesOf(Flatten(parts[k := []]), name)| + (if IsCoordinate(name) then 1 else 0)
    ensures name in FieldsOf(Flatten(parts)) <==> ValuesOf(Flatten(parts), name) != []
  {
    assert MayAdd(doc, form, Some(controls[k].path), controls[k], parts[k]);
    FlattenUpdate(parts, k, name);
    CoordinateValues(parts[k], name);
    NamesExact(Flatten(parts), name);
  }

  lemma OtherField(doc: seq<Node>, form: ElementRef, indexed: IndexedForm, action: FeatureAction, fact: FormFact,
                   controls: seq<ElementRef>, parts: seq<seq<Entry>>, k: nat, name: Text)
    requires IndexesForm(doc, form, indexed) && Interpret(indexed) == Success(fact) && Clean(action, fact)
    requires k < |controls| && IsSubmission(doc, form.path, Some(controls[k].path), controls, parts)
    requires AddsCoordinates(Some(controls[k].path), controls[k]) && TakesPart(doc, form.path, controls[k])
    requires name in FieldsOf(Flatten(parts)) && !IsCoordinate(name)
    ensures FieldAccepted(action.input, name, ValuesOf(Flatten(parts), name)) <==>
      (BindingOf(action.input.bindings, name).None? ==> |ValuesOf(Flatten(parts), name)| == 1)
  {
    CoordinateCount(doc, form.path, controls, parts, k, name);
    WithoutCoordinates(doc, form.path, controls, parts, k);
    SubmittedName(doc, form, indexed, action, fact, None, controls, parts[k := []], name);
  }

  lemma CoordinateField(doc: seq<Node>, form: Path, action: FeatureAction, controls: seq<ElementRef>, parts: seq<seq<Entry>>,
                        k: nat, name: Text)
    requires k < |controls| && IsSubmission(doc, form, Some(controls[k].path), controls, parts)
    requires AddsCoordinates(Some(controls[k].path), controls[k]) && TakesPart(doc, form, controls[k]) && IsCoordinate(name)
    ensures name in FieldsOf(Flatten(parts))
    ensures FieldAccepted(action.input, name, ValuesOf(Flatten(parts), name)) <==> CoordinateFits(action, Flatten(parts[k := []]), name)
  {
    CoordinateCount(doc, form, controls, parts, k, name);
  }

  lemma CoordinateFields(doc: seq<Node>, form: ElementRef, indexed: IndexedForm, action: FeatureAction, fact: FormFact,
                         controls: seq<ElementRef>, parts: seq<seq<Entry>>, k: nat)
    requires IndexesForm(doc, form, indexed) && Interpret(indexed) == Success(fact) && Clean(action, fact)
    requires k < |controls| && IsSubmission(doc, form.path, Some(controls[k].path), controls, parts)
    requires AddsCoordinates(Some(controls[k].path), controls[k]) && TakesPart(doc, form.path, controls[k])
    ensures RawFieldsAccepted(action.input, FieldsOf(Flatten(parts))) <==>
      && CoordinateFits(action, Flatten(parts[k := []]), X_COORDINATE)
      && CoordinateFits(action, Flatten(parts[k := []]), Y_COORDINATE)
      && OthersOnce(action.input, Flatten(parts))
  {
    var entries := Flatten(parts);
    forall name | name in FieldsOf(entries) && !IsCoordinate(name)
      ensures FieldAccepted(action.input, name, ValuesOf(entries, name)) <==>
        (BindingOf(action.input.bindings, name).None? ==> |ValuesOf(entries, name)| == 1)
    {
      OtherField(doc, form, indexed, action, fact, controls, parts, k, name);
    }
    CoordinateField(doc, form.path, action, controls, parts, k, X_COORDINATE);
    CoordinateField(doc, form.path, action, controls, parts, k, Y_COORDINATE);
    FieldsSplit(action, entries);
  }

  // All fields pass exactly if the coordinates do and the others do.
  lemma FieldsSplit(action: FeatureAction, entries: seq<Entry>)
    requires X_COORDINATE in FieldsOf(entries) && Y_COORDINATE in FieldsOf(entries)
    requires forall name :: name in FieldsOf(entries) && !IsCoordinate(name) ==>
      (FieldAccepted(action.input, name, ValuesOf(entries, name)) <==>
       (BindingOf(action.input.bindings, name).None? ==> |ValuesOf(entries, name)| == 1))
    ensures RawFieldsAccepted(action.input, FieldsOf(entries)) <==>
      && FieldAccepted(action.input, X_COORDINATE, ValuesOf(entries, X_COORDINATE))
      && FieldAccepted(action.input, Y_COORDINATE, ValuesOf(entries, Y_COORDINATE))
      && OthersOnce(action.input, entries)
  {
  }

  predicate IsCoordinate(name: Text) {
    name == X_COORDINATE || name == Y_COORDINATE
  }

  // A clean form that is submitted by an image button without a name: the static check does not see the coordinates
  // such a button adds, so the runtime accepts the submission exactly when they happen to fit as well.
  lemma CoordinatesAccepted(doc: seq<Node>, form: ElementRef, indexed: IndexedForm, action: FeatureAction, fact: FormFact,
                            limits: Limits, controls: seq<ElementRef>, parts: seq<seq<Entry>>, k: nat)
    requires IndexesForm(doc, form, indexed) && Interpret(indexed) == Success(fact) && Clean(action, fact)
    requires k < |controls| && IsSubmission(doc, form.path, Some(controls[k].path), controls, parts)
    requires AddsCoordinates(Some(controls[k].path), controls[k]) && TakesPart(doc, form.path, controls[k])
    ensures Accepts(limits, action.input, Flatten(parts)) <==>
      && WithinLimits(limits, Flatten(parts)) && NoneReserved(Flatten(parts))
      && CoordinateFits(action, Flatten(parts[k := []]), X_COORDINATE)
      && CoordinateFits(action, Flatten(parts[k := []]), Y_COORDINATE)
      && OthersOnce(action.input, Flatten(parts))
  {
    EntriesNamed(doc, form.path, Some(controls[k].path), controls, parts);
    ReadableExactly(limits, Flatten(parts));
    CoordinateFields(doc, form, indexed, action, fact, controls, parts, k);
  }

  // ----- The check of a whole feature -----

  // The document is a complete index of a parsed HTML page.
  ghost predicate IndexesPage(doc: seq<Node>, document: Document) {
    document.complete && forall f :: f in document.forms ==> exists form :: IndexesForm(doc, form, f)
  }

  // Whatever a form submits to an action without coordinates is accepted exactly when it is within the limits, no name in
  // it is reserved, and the merely ignored names in it carry one value each.
  ghost predicate AcceptsSubmissions(doc: seq<Node>, form: ElementRef, action: FeatureAction) {
    forall limits, submitter, controls, parts ::
      IsSubmission(doc, form.path, submitter, controls, parts) && NoCoordinates(submitter, controls) ==>
        AcceptsExactly(limits, action.input, Flatten(parts))
  }

  // In an empty report, the action is linked to a form of its page with the declared id, and their check is clean.
  lemma LinkedClean(documents: seq<Document>, actions: seq<FeatureAction>, action: FeatureAction, d: Document)
    returns (indexed: IndexedForm, fact: FormFact)
    requires FeatureReports(documents, actions) == Success([]) && action in actions && PageOf(documents, action.template, d)
    ensures indexed in d.forms && Identified(indexed, action.formId)
    ensures Interpret(indexed) == Success(fact) && Clean(action, fact)
  {
    FeatureSilent(documents, actions);
    fact := LinkedForm(documents, action).value;
    CleanExactly(action, fact);
    LinkedExact(documents, action, fact);
    var page, k :| LinkedTo(documents, action, page, k) && Interpret(page.forms[k]) == Success(fact);
    DocumentExact(documents, action.template, page);
    DocumentExact(documents, action.template, d);
    indexed := page.forms[k];
  }

  lemma IndexedId(doc: seq<Node>, form: ElementRef, indexed: IndexedForm)
    requires IndexesForm(doc, form, indexed) && indexed.identity.Known?
    ensures form.element.attributes.id == Some(indexed.identity.value)
  {
  }

  // An empty report for a feature: every action is linked to a form of its page with the declared id, and the runtime
  // accepts what that form submits.
  lemma CleanFeatureAccepted(documents: seq<Document>, actions: seq<FeatureAction>, action: FeatureAction, d: Document, doc: seq<Node>)
    requires FeatureReports(documents, actions) == Success([]) && action in actions
    requires PageOf(documents, action.template, d) && IndexesPage(doc, d)
    ensures exists form ::
      form in IndexFor(doc).forms && form.element.attributes.id == Some(action.formId) && AcceptsSubmissions(doc, form, action)
  {
    var indexed, fact := LinkedClean(documents, actions, action, d);
    var form :| IndexesForm(doc, form, indexed);
    IndexedId(doc, form, indexed);
    CleanAcceptsSubmissions(doc, form, indexed, action, fact);
  }

  lemma CleanAcceptsSubmissions(doc: seq<Node>, form: ElementRef, indexed: IndexedForm, action: FeatureAction, fact: FormFact)
    requires IndexesForm(doc, form, indexed) && Interpret(indexed) == Success(fact) && Clean(action, fact)
    ensures AcceptsSubmissions(doc, form, action)
  {
    forall limits, submitter, controls, parts |
      IsSubmission(doc, form.path, submitter, controls, parts) && NoCoordinates(submitter, controls)
      ensures AcceptsExactly(limits, action.input, Flatten(parts))
    {
      CleanFormAccepted(doc, form, indexed, action, fact, limits, submitter, controls, parts);
    }
  }
}
