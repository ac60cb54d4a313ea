/**
 Which forms never submit anything the runtime refuses: a condition on the form and the contract alone, decided before any
 submission, against every submission the form can make.
 */
module FormGuarantee {
  import opened Wrappers
  import opened Texts
  import opened Sequences
  import opened HtmlTree
  import opened HtmlTraversal
  import opened FormIndexModel
  import opened HtmlForms
  import opened FormFacts
  import opened Contracts
  import opened FormRule
  import opened RuntimeForm
  import opened FormAcceptance

  ghost predicate AlwaysAccepted(doc: seq<Node>, form: ElementRef, action: FeatureAction) {
    forall limits, submitter, controls, parts ::
      IsSubmission(doc, form.path, submitter, controls, parts) && WithinLimits(limits, Flatten(parts)) ==>
        Accepts(limits, action.input, Flatten(parts))
  }

  // A name the form submits is not reserved and, if it is merely ignored, its controls send one value at most.
  ghost predicate NameFits(action: FeatureAction, indexed: IndexedForm, name: Text) {
    Submitting(indexed.controls, name) != [] ==>
      && name !in RESERVED_NAMES
      && (BindingOf(action.input.bindings, name).None? ==> SingleShape(Submitting(indexed.controls, name)))
  }

  // The image buttons without a name that the form can be submitted by.
  ghost predicate NamelessImage(doc: seq<Node>, form: Path, button: ElementRef) {
    && IsControl(doc, button.path) && NodeAt(doc, button.path) == Some(button.element)
    && TakesPart(doc, form, button) && AddsCoordinates(Some(button.path), button)
  }

  // A coordinate is bound to a repeated field, or it is accepted and no control of the form has its name.
  ghost predicate CoordinateAlwaysFits(action: FeatureAction, indexed: IndexedForm, name: Text) {
    var binding := BindingOf(action.input.bindings, name);
    || (binding.Some? && binding.value.decode.Repeat?)
    || (IsAccepted(action.input, name) && Submitting(indexed.controls, name) == [])
  }

  ghost predicate FormFits(doc: seq<Node>, form: ElementRef, action: FeatureAction, indexed: IndexedForm) {
    && (forall name :: NameFits(action, indexed, name))
    && ((exists button :: NamelessImage(doc, form.path, button)) ==>
          CoordinateAlwaysFits(action, indexed, X_COORDINATE) && CoordinateAlwaysFits(action, indexed, Y_COORDINATE))
  }

  // ----- A form that fits -----

  lemma FittingName(doc: seq<Node>, form: ElementRef, indexed: IndexedForm, action: FeatureAction, fact: FormFact,
                    submitter: Option<Path>, controls: seq<ElementRef>, parts: seq<seq<Entry>>, name: Text)
    requires IndexesForm(doc, form, indexed) && Interpret(indexed) == Success(fact) && Clean(action, fact)
    requires IsSubmission(doc, form.path, submitter, controls, parts) && NoCoordinates(submitter, controls)
    requires NameFits(action, indexed, name)
    ensures ValuesOf(Flatten(parts), name) != [] ==> name !in RESERVED_NAMES && Submitting(indexed.controls, name) != []
    ensures BindingOf(action.input.bindings, name).None? ==> |ValuesOf(Flatten(parts), name)| <= 1
  {
    if ValuesOf(Flatten(parts), name) != [] {
      SubmittedName(doc, form, indexed, action, fact, submitter, controls, parts, name);
      if BindingOf(action.input.bindings, name).None? {
        CleanNames(doc, form, indexed, action, fact, name);
        SingleNamedOnce(doc, form, indexed, submitter, controls, parts, name);
        FlattenOnce(parts, name);
      }
    }
  }

  lemma EntryValue(entries: seq<Entry>, entry: Entry)
    requires entry in entries
    ensures ValuesOf(entries, entry.0) != []
  {
    NamesExact(entries, entry.0);
  }

  lemma FitsWithoutCoordinates(doc: seq<Node>, form: ElementRef, indexed: IndexedForm, action: FeatureAction, fact: FormFact,
                               limits: Limits, submitter: Option<Path>, controls: seq<ElementRef>, parts: seq<seq<Entry>>)
    requires IndexesForm(doc, form, indexed) && Interpret(indexed) == Success(fact) && Clean(action, fact)
    requires IsSubmission(doc, form.path, submitter, controls, parts) && NoCoordinates(submitter, controls)
    requires WithinLimits(limits, Flatten(parts)) && forall name :: NameFits(action, indexed, name)
    ensures Accepts(limits, action.input, Flatten(parts))
  {
    var entries := Flatten(parts);
    forall e | e in entries ensures e.0 !in RESERVED_NAMES {
      EntryValue(entries, e);
      FittingName(doc, form, indexed, action, fact, submitter, controls, parts, e.0);
    }
    forall name | name in Names(entries) && BindingOf(action.input.bindings, name).None?
      ensures |ValuesOf(entries, name)| == 1
    {
      NamesExact(entries, name);
      FittingName(doc, form, indexed, action, fact, submitter, controls, parts, name);
    }
    CleanFormAccepted(doc, form, indexed, action, fact, limits, submitter, controls, parts);
  }

  lemma FittingCoordinate(doc: seq<Node>, form: ElementRef, indexed: IndexedForm, action: FeatureAction, fact: FormFact,
                          controls: seq<ElementRef>, parts: seq<seq<Entry>>, k: nat, name: Text)
    requires IndexesForm(doc, form, indexed) && Interpret(indexed) == Success(fact) && Clean(action, fact)
    requires k < |controls| && IsSubmission(doc, form.path, Some(controls[k].path), controls, parts)
    requires AddsCoordinates(Some(controls[k].path), controls[k]) && TakesPart(doc, form.path, controls[k])
    requires NameFits(action, indexed, name)
    ensures ValuesOf(Flatten(parts[k := []]), name) != [] ==> name !in RESERVED_NAMES && Submitting(indexed.controls, name) != []
    ensures !IsCoordinate(name) ==> ValuesOf(Flatten(parts), name) == [] || name !in RESERVED_NAMES
    ensures !IsCoordinate(name) && BindingOf(action.input.bindings, name).None? ==> |ValuesOf(Flatten(parts), name)| <= 1
  {
    WithoutCoordinates(doc, form.path, controls, parts, k);
    assert MayAdd(doc, form.path, Some(controls[k].path), controls[k], parts[k]);
    FlattenUpdate(parts, k, name);
    CoordinateValues(parts[k], name);
    FittingName(doc, form, indexed, action, fact, None, controls, parts[k := []], name);
  }

  lemma CoordinateNames()
    ensures X_COORDINATE !in RESERVED_NAMES && Y_COORDINATE !in RESERVED_NAMES
  {
    assert forall name :: name in RESERVED_NAMES ==> |name| > 1;
  }

  lemma FitsWithCoordinates(doc: seq<Node>, form: ElementRef, indexed: IndexedForm, action: FeatureAction, fact: FormFact,
                            limits: Limits, controls: seq<ElementRef>, parts: seq<seq<Entry>>, k: nat)
    requires IndexesForm(doc, form, indexed) && Interpret(indexed) == Success(fact) && Clean(action, fact)
    requires k < |controls| && IsSubmission(doc, form.path, Some(controls[k].path), controls, parts)
    requires AddsCoordinates(Some(controls[k].path), controls[k]) && TakesPart(doc, form.path, controls[k])
    requires WithinLimits(limits, Flatten(parts)) && FormFits(doc, form, action, indexed)
    ensures Accepts(limits, action.input, Flatten(parts))
  {
    assert controls[k] in controls && ElementRef(controls[k].path, controls[k].element) in controls;
    assert NamelessImage(doc, form.path, controls[k]);
    CoordinateNames();
    FittingEntries(doc, form, indexed, action, fact, controls, parts, k);
    FittingCoordinate(doc, form, indexed, action, fact, controls, parts, k, X_COORDINATE);
    FittingCoordinate(doc, form, indexed, action, fact, controls, parts, k, Y_COORDINATE);
    CoordinatesAccepted(doc, form, indexed, action, fact, limits, controls, parts, k);
  }

  lemma FittingEntries(doc: seq<Node>, form: ElementRef, indexed: IndexedForm, action: FeatureAction, fact: FormFact,
                       controls: seq<ElementRef>, parts: seq<seq<Entry>>, k: nat)
    requires IndexesForm(doc, form, indexed) && Interpret(indexed) == Success(fact) && Clean(action, fact)
    requires k < |controls| && IsSubmission(doc, form.path, Some(controls[k].path), controls, parts)
    requires AddsCoordinates(Some(controls[k].path), controls[k]) && TakesPart(doc, form.path, controls[k])
    requires forall name :: NameFits(action, indexed, name)
    ensures NoneReserved(Flatten(parts)) && OthersOnce(action.input, Flatten(parts))
  {
    var entries := Flatten(parts);
    CoordinateNames();
    forall e | e in entries ensures e.0 !in RESERVED_NAMES {
      EntryValue(entries, e);
      FittingCoordinate(doc, form, indexed, action, fact, controls, parts, k, e.0);
    }
    forall name | name in Names(entries) && !IsCoordinate(name) && BindingOf(action.input.bindings, name).None?
      ensures |ValuesOf(entries, name)| == 1
    {
      NamesExact(entries, name);
      FittingCoordinate(doc, form, indexed, action, fact, controls, parts, k, name);
    }
  }

  lemma FittingSubmission(doc: seq<Node>, form: ElementRef, indexed: IndexedForm, action: FeatureAction, fact: FormFact,
                          limits: Limits, submitter: Option<Path>, controls: seq<ElementRef>, parts: seq<seq<Entry>>)
    requires IndexesForm(doc, form, indexed) && Interpret(indexed) == Success(fact) && Clean(action, fact)
    requires FormFits(doc, form, action, indexed)
    requires IsSubmission(doc, form.path, submitter, controls, parts) && WithinLimits(limits, Flatten(parts))
    ensures Accepts(limits, action.input, Flatten(parts))
  {
    if NoCoordinates(submitter, controls) {
      FitsWithoutCoordinates(doc, form, indexed, action, fact, limits, submitter, controls, parts);
    } else {
      var c :| c in controls && AddsCoordinates(submitter, c);
      var k :| 0 <= k < |controls| && controls[k] == c;
      if TakesPart(doc, form.path, c) {
        FitsWithCoordinates(doc, form, indexed, action, fact, limits, controls, parts, k);
      } else {
        assert MayAdd(doc, form.path, submitter, controls[k], parts[k]);
        assert parts[k := []] == parts;
        WithoutCoordinates(doc, form.path, controls, parts, k);
        FitsWithoutCoordinates(doc, form, indexed, action, fact, limits, None, controls, parts);
      }
    }
  }

  lemma FittingAccepted(doc: seq<Node>, form: ElementRef, indexed: IndexedForm, action: FeatureAction, fact: FormFact)
    requires IndexesForm(doc, form, indexed) && Interpret(indexed) == Success(fact) && Clean(action, fact)
    requires FormFits(doc, form, action, indexed)
    ensures AlwaysAccepted(doc, form, action)
  {
    forall limits, submitter, controls, parts |
      IsSubmission(doc, form.path, submitter, controls, parts) && WithinLimits(limits, Flatten(parts))
      ensures Accepts(limits, action.input, Flatten(parts))
    {
      FittingSubmission(doc, form, indexed, action, fact, limits, submitter, controls, parts);
    }
  }

  // ----- A form that does not fit -----

  // At most two controls add anything.
  function Chosen(n: nat, i: nat, first: seq<Entry>, j: nat, second: seq<Entry>): (parts: seq<seq<Entry>>)
    ensures |parts| == n
  {
    seq(n, k requires 0 <= k < n => if k == i then first else if k == j then second else [])
  }

  lemma ChosenValues(n: nat, i: nat, first: seq<Entry>, j: nat, second: seq<Entry>, name: Text)
    requires i < n && j < n
    ensures |ValuesOf(Flatten(Chosen(n, i, first, j, second)), name)| >=
      |ValuesOf(first, name)| + (if i == j then 0 else |ValuesOf(second, name)|)
  {
    var parts := Chosen(n, i, first, j, second);
    FlattenUpdate(parts, i, name);
    if i != j {
      FlattenUpdate(parts[i := []], j, name);
    }
  }

  ghost predicate Submitter(submitter: Option<Path>, control: ElementRef) {
    submitter.None? || (submitter == Some(control.path) && IsSubmitter(control.element))
  }

  lemma ChosenSubmission(doc: seq<Node>, form: Path, submitter: Option<Path>, controls: seq<ElementRef>,
                         i: nat, first: seq<Entry>, j: nat, second: seq<Entry>)
    requires ControlsInTreeOrder(doc, controls) && (forall c :: c in controls ==> IsElement(doc, c.path))
    requires i < |controls| && j < |controls| && Submitter(submitter, controls[i])
    requires MayAdd(doc, form, submitter, controls[i], first)
    requires i != j ==> MayAdd(doc, form, submitter, controls[j], second)
    requires i != j && SameRadioGroup(doc, form, controls[i], controls[j]) ==> first == [] || second == []
    ensures IsSubmission(doc, form, submitter, controls, Chosen(|controls|, i, first, j, second))
  {
    var parts := Chosen(|controls|, i, first, j, second);
    forall k | 0 <= k < |controls| ensures submitter == Some(controls[k].path) ==> k == i {
      LessIrreflexive(controls[i].path);
    }
    forall k | 0 <= k < |controls| ensures MayAdd(doc, form, submitter, controls[k], parts[k]) {
      if k != i && k != j {
        assert submitter != Some(controls[k].path);
      }
    }
    assert RadiosExclusive(doc, form, controls, parts) by {
      forall a, b | 0 <= a < b < |controls| && SameRadioGroup(doc, form, controls[a], controls[b])
        ensures parts[a] == [] || parts[b] == []
      {
        assert SameRadioGroup(doc, form, controls[b], controls[a]);
      }
    }
  }

  // A control of a name group may submit one entry of the name, and two if it may send several values.
  lemma MemberAdds(doc: seq<Node>, form: Path, submitter: Option<Path>, r: ElementRef, name: Text)
    requires r in IndexFor(doc).controls && InGroup(IndexFor(doc), form, name, r)
    ensures IsElement(doc, r.path) && MayAdd(doc, form, submitter, r, [(name, [])])
    ensures GroupFact(r).kind == SelectControl && GroupFact(r).multiple ==>
      MayAdd(doc, form, submitter, r, [(name, []), (name, [])])
  {
    ControlsExact(doc);
    assert ElementRef(r.path, r.element) in IndexFor(doc).controls;
    OwnerCorrect(doc, r, form);
  }

  // The controls of a page in tree order, with the place of one of them.
  lemma ControlPlace(doc: seq<Node>, r: ElementRef) returns (i: nat)
    requires r in IndexFor(doc).controls
    ensures i < |IndexFor(doc).controls| && IndexFor(doc).controls[i] == r
    ensures ControlsInTreeOrder(doc, IndexFor(doc).controls)
    ensures forall c :: c in IndexFor(doc).controls ==> IsElement(doc, c.path)
  {
    ControlsExact(doc);
    forall c | c in IndexFor(doc).controls ensures IsElement(doc, c.path) {
      assert ElementRef(c.path, c.element) in IndexFor(doc).controls;
    }
    i :| 0 <= i < |IndexFor(doc).controls| && IndexFor(doc).controls[i] == r;
  }

  function Needed(entries: seq<Entry>): nat {
    if entries == [] then 0
    else
      var last := entries[|entries| - 1];
      Needed(entries[..|entries| - 1]) + Utf8Length(last.0) + Utf8Length(last.1)
  }

  lemma {:induction false} NeededSuffices(entries: seq<Entry>)
    ensures forall e :: e in entries ==> Utf8Length(e.0) <= Needed(entries) && Utf8Length(e.1) <= Needed(entries)
  {
    if entries != [] {
      NeededSuffices(entries[..|entries| - 1]);
      assert entries == entries[..|entries| - 1] + [entries[|entries| - 1]];
    }
  }

  // What an always accepting form submits is accepted under limits that are wide enough.
  lemma Taken(doc: seq<Node>, form: ElementRef, action: FeatureAction, submitter: Option<Path>,
              controls: seq<ElementRef>, parts: seq<seq<Entry>>)
    requires AlwaysAccepted(doc, form, action) && IsSubmission(doc, form.path, submitter, controls, parts)
    ensures NoneReserved(Flatten(parts)) && RawFieldsAccepted(action.input, FieldsOf(Flatten(parts)))
  {
    var entries := Flatten(parts);
    NeededSuffices(entries);
    var limits := Limits(|entries|, Needed(entries));
    assert WithinLimits(limits, entries);
    assert Accepts(limits, action.input, entries);
    forall e | e in entries ensures e.0 !in RESERVED_NAMES {
      assert EntryReadable(limits, e);
    }
  }

  // A name that occurs twice must be bound to a repeated field.
  lemma TwiceTaken(action: FeatureAction, entries: seq<Entry>, name: Text)
    requires RawFieldsAccepted(action.input, FieldsOf(entries)) && |ValuesOf(entries, name)| >= 1
    ensures FieldAccepted(action.input, name, ValuesOf(entries, name))
    ensures |ValuesOf(entries, name)| >= 2 ==>
      BindingOf(action.input.bindings, name).Some? && BindingOf(action.input.bindings, name).value.decode.Repeat?
  {
    NamesExact(entries, name);
    assert name in FieldsOf(entries);
  }

  lemma OneEntry(name: Text)
    ensures |ValuesOf([(name, [])], name)| == 1 && |ValuesOf([(name, []), (name, [])], name)| == 2
  {
    SingleValue((name, []), name);
    var two: seq<Entry> := [(name, []), (name, [])];
    assert two[..1] == [(name, [])];
  }

  lemma NameNotReserved(doc: seq<Node>, form: ElementRef, indexed: IndexedForm, action: FeatureAction, name: Text)
    requires IndexesForm(doc, form, indexed) && forall c :: c in indexed.controls ==> c.successful.Known?
    requires AlwaysAccepted(doc, form, action) && Submitting(indexed.controls, name) != []
    ensures name !in RESERVED_NAMES
  {
    var r := SubmittingFromGroup(doc, form, indexed, name, Submitting(indexed.controls, name)[0]);
    var i := ControlPlace(doc, r);
    var controls, one: seq<Entry> := IndexFor(doc).controls, [(name, [])];
    MemberAdds(doc, form.path, None, r, name);
    ChosenSubmission(doc, form.path, None, controls, i, one, i, []);
    var entries := Flatten(Chosen(|controls|, i, one, i, []));
    Taken(doc, form, action, None, controls, Chosen(|controls|, i, one, i, []));
    ChosenValues(|controls|, i, one, i, [], name);
    OneEntry(name);
    NamesExact(entries, name);
  }

  lemma OtherMember<T>(s: seq<T>, x: T) returns (y: T)
    requires Distinct(s) && |s| >= 2
    ensures y in s && y != x
  {
    y := if s[0] == x then s[1] else s[0];
  }

  lemma GroupDistinct(doc: seq<Node>, form: Path, name: Text)
    ensures Distinct(Group(IndexFor(doc), form, name, IndexFor(doc).controls))
  {
    ControlPathsDistinct(doc);
    FilterDistinct(GroupTest(IndexFor(doc), form, name), IndexFor(doc).controls);
  }

  // A lone control that may send several values sends two.
  lemma MultipleSelectTaken(doc: seq<Node>, form: ElementRef, action: FeatureAction, r: ElementRef, name: Text)
    requires AlwaysAccepted(doc, form, action)
    requires r in IndexFor(doc).controls && InGroup(IndexFor(doc), form.path, name, r)
    requires GroupFact(r).kind == SelectControl && GroupFact(r).multiple
    ensures BindingOf(action.input.bindings, name).Some?
  {
    var i := ControlPlace(doc, r);
    var controls, two: seq<Entry> := IndexFor(doc).controls, [(name, []), (name, [])];
    MemberAdds(doc, form.path, None, r, name);
    ChosenSubmission(doc, form.path, None, controls, i, two, i, []);
    Taken(doc, form, action, None, controls, Chosen(|controls|, i, two, i, []));
    ChosenValues(|controls|, i, two, i, [], name);
    OneEntry(name);
    TwiceTaken(action, Flatten(Chosen(|controls|, i, two, i, [])), name);
  }

  // Two controls that are not both radio buttons send one value each.
  lemma PairTaken(doc: seq<Node>, form: ElementRef, action: FeatureAction, a: ElementRef, b: ElementRef, name: Text)
    requires AlwaysAccepted(doc, form, action) && a != b && !IsRadio(a.element)
    requires a in IndexFor(doc).controls && InGroup(IndexFor(doc), form.path, name, a)
    requires b in IndexFor(doc).controls && InGroup(IndexFor(doc), form.path, name, b)
    ensures BindingOf(action.input.bindings, name).Some?
  {
    var i := ControlPlace(doc, a);
    var j := ControlPlace(doc, b);
    var controls, one: seq<Entry> := IndexFor(doc).controls, [(name, [])];
    MemberAdds(doc, form.path, None, a, name);
    MemberAdds(doc, form.path, None, b, name);
    ChosenSubmission(doc, form.path, None, controls, i, one, j, one);
    Taken(doc, form, action, None, controls, Chosen(|controls|, i, one, j, one));
    ChosenValues(|controls|, i, one, j, one, name);
    OneEntry(name);
    TwiceTaken(action, Flatten(Chosen(|controls|, i, one, j, one)), name);
  }

  lemma IgnoredSingle(doc: seq<Node>, form: ElementRef, indexed: IndexedForm, action: FeatureAction, name: Text)
    requires IndexesForm(doc, form, indexed) && forall c :: c in indexed.controls ==> c.successful.Known?
    requires AlwaysAccepted(doc, form, action) && BindingOf(action.input.bindings, name).None?
    ensures SingleShape(Submitting(indexed.controls, name))
  {
    var facts := Submitting(indexed.controls, name);
    var group := Group(IndexFor(doc), form.path, name, IndexFor(doc).controls);
    SubmittingIsGroup(doc, form, indexed, name);
    if !SingleShape(facts) {
      if |facts| <= 1 {
        var fact :| fact in facts && fact.kind == SelectControl && fact.multiple;
        var r := SubmittingFromGroup(doc, form, indexed, name, fact);
        MultipleSelectTaken(doc, form, action, r, name);
      } else {
        var fact :| fact in facts && !IsRadioFact(fact);
        var a := SubmittingFromGroup(doc, form, indexed, name, fact);
        GroupDistinct(doc, form.path, name);
        var b := OtherMember(group, a);
        PairTaken(doc, form, action, a, b, name);
      }
    }
  }

  const COORDINATES: seq<Entry> := [(X_COORDINATE, []), (Y_COORDINATE, [])]

  lemma ButtonTaken(doc: seq<Node>, form: ElementRef, action: FeatureAction, button: ElementRef, i: nat, j: nat,
                    second: seq<Entry>, name: Text)
    requires AlwaysAccepted(doc, form, action) && NamelessImage(doc, form.path, button) && IsCoordinate(name)
    requires i < |IndexFor(doc).controls| && IndexFor(doc).controls[i] == button && j < |IndexFor(doc).controls|
    requires ControlsInTreeOrder(doc, IndexFor(doc).controls) && forall c :: c in IndexFor(doc).controls ==> IsElement(doc, c.path)
    requires i != j ==> MayAdd(doc, form.path, Some(button.path), IndexFor(doc).controls[j], second)
    ensures IsAccepted(action.input, name)
    ensures i != j && |ValuesOf(second, name)| >= 1 ==>
      BindingOf(action.input.bindings, name).Some? && BindingOf(action.input.bindings, name).value.decode.Repeat?
  {
    var controls := IndexFor(doc).controls;
    ChosenSubmission(doc, form.path, Some(button.path), controls, i, COORDINATES, j, second);
    var parts := Chosen(|controls|, i, COORDINATES, j, second);
    Taken(doc, form, action, Some(button.path), controls, parts);
    CoordinateValues(COORDINATES, name);
    ChosenValues(|controls|, i, COORDINATES, j, second, name);
    TwiceTaken(action, Flatten(parts), name);
  }

  lemma CoordinateMustFit(doc: seq<Node>, form: ElementRef, indexed: IndexedForm, action: FeatureAction, button: ElementRef, name: Text)
    requires IndexesForm(doc, form, indexed) && forall c :: c in indexed.controls ==> c.successful.Known?
    requires AlwaysAccepted(doc, form, action) && NamelessImage(doc, form.path, button) && IsCoordinate(name)
    ensures CoordinateAlwaysFits(action, indexed, name)
  {
    ControlsExact(doc);
    assert ElementRef(button.path, button.element) in IndexFor(doc).controls;
    var i := ControlPlace(doc, button);
    ButtonTaken(doc, form, action, button, i, i, [], name);
    if Submitting(indexed.controls, name) != [] {
      var r := SubmittingFromGroup(doc, form, indexed, name, Submitting(indexed.controls, name)[0]);
      var j := ControlPlace(doc, r);
      MemberAdds(doc, form.path, Some(button.path), r, name);
      OneEntry(name);
      ButtonTaken(doc, form, action, button, i, j, [(name, [])], name);
    }
  }

  // Every submission of a clean form that is within the limits is accepted exactly if no name the form submits is reserved,
  // the controls of each merely ignored name send at most one value together, and the coordinates of an image button
  // without a name, if the form has one, always fit.
  lemma AlwaysAcceptedExactly(doc: seq<Node>, form: ElementRef, indexed: IndexedForm, action: FeatureAction, fact: FormFact)
    requires IndexesForm(doc, form, indexed) && Interpret(indexed) == Success(fact) && Clean(action, fact)
    ensures AlwaysAccepted(doc, form, action) <==> FormFits(doc, form, action, indexed)
  {
    CleanNames(doc, form, indexed, action, fact, []);
    if FormFits(doc, form, action, indexed) {
      FittingAccepted(doc, form, indexed, action, fact);
    }
    if AlwaysAccepted(doc, form, action) {
      forall name ensures NameFits(action, indexed, name) {
        if Submitting(indexed.controls, name) != [] {
          NameNotReserved(doc, form, indexed, action, name);
          if BindingOf(action.input.bindings, name).None? {
            IgnoredSingle(doc, form, indexed, action, name);
          }
        }
      }
      if button :| NamelessImage(doc, form.path, button) {
        CoordinateMustFit(doc, form, indexed, action, button, X_COORDINATE);
        CoordinateMustFit(doc, form, indexed, action, button, Y_COORDINATE);
      }
    }
  }
}
