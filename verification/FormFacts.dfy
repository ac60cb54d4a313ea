/** Interpreting an indexed form (packages/compiler/src/form-index-semantics.ts): fields by name, failing closed. */
module FormFacts {
  import opened Wrappers
  import opened Texts
  import opened Ranges
  import opened Sequences
  import opened Sorting
  import opened HtmlTree
  import opened FormIndexModel

  datatype ControlFact = ControlFact(kind: ControlKind, inputType: InputType, multiple: bool, range: Range)

  datatype FieldFact = FieldFact(name: Text, controls: seq<ControlFact>, range: Range)

  datatype UnsupportedFact = UnsupportedFact(
    kind: ControlKind, inputType: InputType, name: Text, reason: UnsupportedReason, range: Range)

  datatype ActionFact = LiteralAction(value: Text) | CurrentDocumentAction

  datatype FormFact = FormFact(
    id: Text, verb: Text, action: ActionFact, fields: seq<FieldFact>, unsupported: seq<UnsupportedFact>, range: Range)

  datatype IndexFailure =
    | DocumentMissing | InspectionIncomplete | IdentityUnresolved | EvidenceUnresolved | ControlUnresolved | ControlInvalid
    | FormNotFound | FormIdDuplicate
    | DocumentPathMissing | RequiredPropertyMissing(name: Text) | BindingMissing(name: Text)

  function KnownEvidence<T>(evidence: Evidence<T>): Result<T, IndexFailure> {
    if evidence.Known? then Success(evidence.value) else Failure(EvidenceUnresolved)
  }

  function OptionalEvidence<T>(evidence: Evidence<T>): Result<Option<T>, IndexFailure> {
    if evidence.Absent? then Success(None)
    else
      var value :- KnownEvidence(evidence);
      Success(Some(value))
  }

  function OrNoType(value: Option<InputType>): InputType {
    if value.Some? then value.value else NoType
  }

  function SuccessfulControl(control: IndexedControl): Result<ControlFact, IndexFailure> {
    var kind :- KnownEvidence(control.controlKind);
    if kind == ButtonControl then Failure(ControlInvalid)
    else
      var _ :- KnownEvidence(control.multiplicity);
      var inputType :- OptionalEvidence(control.inputType);
      var multiple :- KnownEvidence(control.multiple);
      Success(ControlFact(kind, OrNoType(inputType), multiple, control.range))
  }

  function UnsupportedControl(control: IndexedControl): Result<UnsupportedFact, IndexFailure>
    requires control.successful.Unsupported?
  {
    var reason := control.successful.reason;
    if reason !in {FileInput, NamedSubmitter, SubmitterRouteOverride} then Failure(ControlUnresolved)
    else
      var kind :- KnownEvidence(control.controlKind);
      if kind !in {ButtonControl, InputControl} then Failure(ControlInvalid)
      else
        var inputType :- OptionalEvidence(control.inputType);
        var name :- OptionalEvidence(control.name);
        Success(UnsupportedFact(kind, OrNoType(inputType), if name.Some? then name.value else [], reason, control.range))
  }

  // The index of the field of a name, or the number of fields when there is none.
  function FieldIndex(fields: seq<FieldFact>, name: Text): (k: nat)
    ensures k <= |fields|
    ensures k < |fields| ==> fields[k].name == name
    ensures forall i :: 0 <= i < k ==> fields[i].name != name
  {
    if fields == [] then 0
    else
      var k := FieldIndex(fields[..|fields| - 1], name);
      if k < |fields| - 1 || fields[k].name == name then k else k + 1
  }

  function AddControl(fields: seq<FieldFact>, name: Text, control: ControlFact): seq<FieldFact> {
    var k := FieldIndex(fields, name);
    if k == |fields| then fields + [FieldFact(name, [control], control.range)]
    else fields[k := fields[k].(controls := fields[k].controls + [control])]
  }

  datatype Collected = Collected(fields: seq<FieldFact>, unsupported: seq<UnsupportedFact>)

  // One control: skipped when known not to be successful or nameless, recorded, or refused.
  function CollectOne(before: Collected, control: IndexedControl): Result<Collected, IndexFailure> {
    match control.successful
    case Unsupported(_, _) =>
      var fact :- UnsupportedControl(control);
      Success(before.(unsupported := before.unsupported + [fact]))
    case Known(successful, _) =>
      if !successful then Success(before)
      else
        var name :- OptionalEvidence(control.name);
        if name == None then Success(before)
        else
          var fact :- SuccessfulControl(control);
          Success(before.(fields := AddControl(before.fields, name.value, fact)))
    case _ => Failure(ControlUnresolved)
  }

  function Collect(controls: seq<IndexedControl>): Result<Collected, IndexFailure> {
    if controls == [] then Success(Collected([], []))
    else
      var before :- Collect(controls[..|controls| - 1]);
      CollectOne(before, controls[|controls| - 1])
  }

  predicate FieldAtMost(a: FieldFact, b: FieldFact) {
    CompareText(a.name, b.name) <= 0
  }

  function ReasonRank(reason: UnsupportedReason): nat {
    match reason
    case FileInput => 0
    case NamedSubmitter => 1
    case ProviderResourceLimit => 2
    case SubmitterRouteOverride => 3
    case UnsupportedControlKind => 4
  }

  predicate UnsupportedAtMost(a: UnsupportedFact, b: UnsupportedFact) {
    var byName := CompareText(a.name, b.name);
    if byName != 0 then byName < 0 else ReasonRank(a.reason) <= ReasonRank(b.reason)
  }

  function AsciiUppercase(s: Text): Text {
    seq(|s|, i requires 0 <= i < |s| => if 97 <= s[i] <= 122 then s[i] - 32 else s[i])
  }

  const GET_VERB: Text := [71, 69, 84]

  function VerbValue(verb: Evidence<Text>): Result<Text, IndexFailure> {
    if verb.Absent? then Success(GET_VERB)
    else
      var value :- KnownEvidence(verb);
      Success(AsciiUppercase(value))
  }

  function ActionValue(action: ActionEvidence): Result<ActionFact, IndexFailure> {
    if action.CurrentDocument? || action.evidence.Absent? then Success(CurrentDocumentAction)
    else
      var value :- KnownEvidence(action.evidence);
      Success(LiteralAction(value))
  }

  function Interpret(form: IndexedForm): Result<FormFact, IndexFailure> {
    var collected :- Collect(form.controls);
    var id :- KnownEvidence(form.identity);
    var verb :- VerbValue(form.verb);
    var action :- ActionValue(form.action);
    Success(FormFact(id, verb, action, Sort(FieldAtMost, collected.fields), Sort(UnsupportedAtMost, collected.unsupported), form.range))
  }

  lemma {:induction false} CollectFailure(controls: seq<IndexedControl>, k: nat)
    requires k <= |controls| && Collect(controls[..k]).Failure?
    ensures Collect(controls) == Collect(controls[..k])
  {
    if k == |controls| {
      assert controls[..k] == controls;
    } else {
      assert controls[..|controls| - 1][..k] == controls[..k];
      CollectFailure(controls[..|controls| - 1], k);
    }
  }

  // formFact: one pass over the controls, growing the field and unsupported lists, which are sorted at the end.
  method InterpretForm(form: IndexedForm) returns (r: Result<FormFact, IndexFailure>)
    ensures r == Interpret(form)
  {
    var fields: seq<FieldFact> := [];
    var unsupported: seq<UnsupportedFact> := [];
    for k := 0 to |form.controls|
      invariant Collect(form.controls[..k]) == Success(Collected(fields, unsupported))
    {
      var control := form.controls[k];
      assert form.controls[..k + 1][..k] == form.controls[..k];
      if CollectOne(Collected(fields, unsupported), control).Failure? {
        CollectFailure(form.controls, k + 1);
      }
      if control.successful.Known? && !control.successful.value {
        continue;
      }
      if control.successful.Unsupported? {
        var fact :- UnsupportedControl(control);
        unsupported := unsupported + [fact];
        continue;
      }
      if !control.successful.Known? {
        return Failure(ControlUnresolved);
      }
      var name :- OptionalEvidence(control.name);
      if name == None {
        continue;
      }
      var fact :- SuccessfulControl(control);
      var existing := FieldIndex(fields, name.value);
      if existing == |fields| {
        fields := fields + [FieldFact(name.value, [fact], control.range)];
      } else {
        fields := fields[existing := fields[existing].(controls := fields[existing].controls + [fact])];
      }
    }
    assert form.controls[..|form.controls|] == form.controls;
    var id :- KnownEvidence(form.identity);
    var verb :- VerbValue(form.verb);
    var action :- ActionValue(form.action);
    r := Success(FormFact(id, verb, action, Sort(FieldAtMost, fields), Sort(UnsupportedAtMost, unsupported), form.range));
  }

  // ----- What the fields are -----

  predicate Submits(control: IndexedControl, name: Text) {
    && control.successful.Known? && control.successful.value
    && control.name.Known? && control.name.value == name
  }

  function FactOrDefault(control: IndexedControl): ControlFact {
    match SuccessfulControl(control)
    case Success(fact) => fact
    case Failure(_) => ControlFact(InputControl, NoType, false, control.range)
  }

  // The facts of the controls that submit under a name, in order.
  function Submitting(controls: seq<IndexedControl>, name: Text): seq<ControlFact> {
    Map(FactOrDefault, Filter(SubmitsUnder(name), controls))
  }

  function SubmitsUnder(name: Text): IndexedControl -> bool {
    (c: IndexedControl) => Submits(c, name)
  }

  ghost predicate NamesDistinct(fields: seq<FieldFact>) {
    forall i, j :: 0 <= i < j < |fields| ==> fields[i].name != fields[j].name
  }

  // A field per name some control submits under, holding exactly the controls of that name in order.
  ghost predicate FieldsGroup(fields: seq<FieldFact>, controls: seq<IndexedControl>) {
    && NamesDistinct(fields)
    && (forall f :: f in fields ==> f.controls != [] && f.controls == Submitting(controls, f.name))
    && (forall name :: Submitting(controls, name) != [] ==> exists f :: f in fields && f.name == name)
  }

  lemma SubmittingStep(controls: seq<IndexedControl>, control: IndexedControl, name: Text)
    ensures Submitting(controls + [control], name)
         == Submitting(controls, name) + if Submits(control, name) then [FactOrDefault(control)] else []
  {
    FilterAppend(SubmitsUnder(name), controls, control);
  }

  // What adding a control does to the fields: it joins the field of its name, or opens one.
  lemma AddControlShape(fields: seq<FieldFact>, name: Text, fact: ControlFact)
    requires NamesDistinct(fields)
    ensures var after := AddControl(fields, name, fact);
      && NamesDistinct(after)
      && (forall f :: f in after ==>
            (f in fields && f.name != name)
            || (f.name == name && f.controls == OldControls(fields, name) + [fact]))
      && (forall f :: f in fields ==> exists g :: g in after && g.name == f.name)
      && (exists g :: g in after && g.name == name)
  {
    var k := FieldIndex(fields, name);
    var after := AddControl(fields, name, fact);
    assert after[k] in after && after[k].name == name;
    forall f | f in fields ensures exists g :: g in after && g.name == f.name {
      var i :| 0 <= i < |fields| && fields[i] == f;
      assert after[i] in after && after[i].name == f.name;
    }
  }

  // The controls of the field of a name; none when there is no such field.
  function OldControls(fields: seq<FieldFact>, name: Text): seq<ControlFact> {
    var k := FieldIndex(fields, name);
    if k < |fields| then fields[k].controls else []
  }

  lemma OldControlsSubmitting(fields: seq<FieldFact>, controls: seq<IndexedControl>, name: Text)
    requires FieldsGroup(fields, controls)
    ensures OldControls(fields, name) == Submitting(controls, name)
  {
    var k := FieldIndex(fields, name);
    if k < |fields| {
      assert fields[k] in fields;
    } else {
      assert forall f :: f in fields ==> f.name != name;
      assert Submitting(controls, name) == [];
    }
  }

  lemma AddControlGroups(fields: seq<FieldFact>, controls: seq<IndexedControl>, control: IndexedControl, name: Text)
    requires FieldsGroup(fields, controls) && Submits(control, name) && SuccessfulControl(control).Success?
    ensures FieldsGroup(AddControl(fields, name, SuccessfulControl(control).value), controls + [control])
  {
    var fact := SuccessfulControl(control).value;
    AddControlShape(fields, name, fact);
    OldControlsSubmitting(fields, controls, name);
    forall n ensures Submitting(controls + [control], n) == Submitting(controls, n) + if n == name then [fact] else [] {
      SubmittingStep(controls, control, n);
    }
  }

  lemma {:induction false} CollectGroups(controls: seq<IndexedControl>)
    requires Collect(controls).Success?
    ensures FieldsGroup(Collect(controls).value.fields, controls)
    ensures Collect(controls).value.unsupported == [] ==> forall c :: c in controls ==> c.successful.Known?
    ensures forall c :: c in controls && c.successful.Known? && c.successful.value && c.name.Known? ==>
      SuccessfulControl(c).Success?
  {
    if controls != [] {
      var earlier, control := controls[..|controls| - 1], controls[|controls| - 1];
      assert controls == earlier + [control];
      CollectGroups(earlier);
      var before := Collect(earlier).value;
      if control.successful.Known? && control.successful.value && control.name.Known? {
        AddControlGroups(before.fields, earlier, control, control.name.value);
      } else {
        SameGroups(before.fields, earlier, control);
      }
    }
  }

  lemma SameGroups(fields: seq<FieldFact>, controls: seq<IndexedControl>, control: IndexedControl)
    requires FieldsGroup(fields, controls) && forall name :: !Submits(control, name)
    ensures FieldsGroup(fields, controls + [control])
  {
    forall name ensures Submitting(controls + [control], name) == Submitting(controls, name) {
      SubmittingStep(controls, control, name);
    }
  }

  lemma FieldsSorted(fields: seq<FieldFact>)
    ensures forall f :: f in Sort(FieldAtMost, fields) <==> f in fields
  {
    SortPermutes(FieldAtMost, fields);
  }

  lemma InterpretCollects(form: IndexedForm)
    requires Interpret(form).Success?
    ensures Collect(form.controls).Success?
    ensures forall f :: f in Interpret(form).value.fields <==> f in Collect(form.controls).value.fields
    ensures Interpret(form).value.unsupported == [] <==> Collect(form.controls).value.unsupported == []
  {
    FieldsSorted(Collect(form.controls).value.fields);
    SortPermutes(UnsupportedAtMost, Collect(form.controls).value.unsupported);
  }

  // The interpreted form has exactly one field per submitted name, with all the controls that submit under it.
  lemma InterpretGroups(form: IndexedForm)
    requires Interpret(form).Success?
    ensures forall f :: f in Interpret(form).value.fields ==> f.controls != [] && f.controls == Submitting(form.controls, f.name)
    ensures forall name :: Submitting(form.controls, name) != [] ==> exists f :: f in Interpret(form).value.fields && f.name == name
    ensures Interpret(form).value.unsupported == [] ==> forall c :: c in form.controls ==> c.successful.Known?
  {
    InterpretCollects(form);
    CollectGroups(form.controls);
  }
}
