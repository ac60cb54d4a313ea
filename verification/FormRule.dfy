/** The static form check (packages/compiler/src/form-rule.ts). */
module FormRule {
  import opened Wrappers
  import opened Texts
  import opened Sequences
  import opened Sorting
  import opened HtmlTree
  import opened Contracts
  import opened FormIndexModel
  import opened FormFacts

  // The template is the project path of the document the action's form is in.
  datatype FeatureAction = FeatureAction(
    id: Text, path: Text, template: Text, formId: Text, documentPath: Option<Text>, input: InputContract)

  datatype Document = Document(path: Text, complete: bool, forms: seq<IndexedForm>)

  datatype Diagnostic =
    | MethodMismatch(action: Text, actual: Text)
    | ActionMismatch(action: Text, actual: Text)
    | ControlUnsupported(action: Text, fact: UnsupportedFact)
    | FieldMissing(action: Text, name: Text)
    | FieldUnexpected(action: Text, name: Text)
    | CodecMismatch(action: Text, binding: nat, count: nat, control: ControlFact)

  const POST_VERB: Text := [80, 79, 83, 84]

  predicate IsRadioFact(control: ControlFact) {
    control.kind == InputControl && control.inputType == RadioType
  }

  predicate IsCheckboxFact(control: ControlFact) {
    control.kind == InputControl && control.inputType == CheckboxType
  }

  predicate IsMultiple(control: ControlFact) {
    IsCheckboxFact(control) || (control.kind == SelectControl && control.multiple)
  }

  function FirstMultiple(controls: seq<ControlFact>): (r: Option<ControlFact>)
    ensures r.None? <==> forall c :: c in controls ==> !IsMultiple(c)
  {
    if controls == [] then None
    else if IsMultiple(controls[0]) then Some(controls[0])
    else FirstMultiple(controls[1..])
  }

  function IncompatibleControl(controls: seq<ControlFact>, decoder: Decoder): Option<ControlFact> {
    if decoder.Repeat? then None
    else if decoder.decoder.CheckboxDecoder? then
      if |controls| == 1 && IsCheckboxFact(controls[0]) then None
      else if |controls| > 1 then Some(controls[1])
      else if |controls| > 0 then Some(controls[0])
      else None
    else
      var oneRadioGroup := |controls| > 1 && forall c :: c in controls ==> IsRadioFact(c);
      if |controls| > 1 && !oneRadioGroup then Some(controls[1]) else FirstMultiple(controls)
  }

  function ResolveAction(action: FeatureAction, form: FormFact): Result<Text, IndexFailure> {
    match form.action
    case LiteralAction(value) => Success(value)
    case CurrentDocumentAction =>
      if action.documentPath.None? then Failure(DocumentPathMissing) else Success(action.documentPath.value)
  }

  function FirstBinding(bindings: seq<Binding>, property: Text): (r: Option<Binding>)
    ensures r.Some? ==> r.value in bindings && r.value.path == [property]
    ensures r.None? ==> forall b :: b in bindings ==> b.path != [property]
  {
    if bindings == [] then None
    else if bindings[0].path == [property] then Some(bindings[0])
    else FirstBinding(bindings[1..], property)
  }

  function FieldOf(fields: seq<FieldFact>, name: Text): (r: Option<FieldFact>)
    ensures r.Some? ==> r.value in fields && r.value.name == name
    ensures r.None? ==> forall f :: f in fields ==> f.name != name
  {
    if fields == [] then None
    else if fields[0].name == name then Some(fields[0])
    else FieldOf(fields[1..], name)
  }

  function RouteReports(action: FeatureAction, form: FormFact, resolved: Text): seq<Diagnostic> {
    (if form.verb != POST_VERB then [MethodMismatch(action.id, form.verb)] else [])
    + (if resolved != action.path then [ActionMismatch(action.id, resolved)] else [])
  }

  function UnsupportedReports(action: FeatureAction, unsupported: seq<UnsupportedFact>): seq<Diagnostic> {
    Map((u: UnsupportedFact) => ControlUnsupported(action.id, u), unsupported)
  }

  function MissingReports(action: FeatureAction, form: FormFact, required: seq<Text>): Result<seq<Diagnostic>, IndexFailure> {
    if required == [] then Success([])
    else
      var name := required[|required| - 1];
      var before :- MissingReports(action, form, required[..|required| - 1]);
      if name !in action.input.properties then Failure(RequiredPropertyMissing(name))
      else
        match FirstBinding(action.input.bindings, name)
        case None => Failure(BindingMissing(name))
        case Some(binding) =>
          Success(before + if FieldOf(form.fields, binding.name).Some? then [] else [FieldMissing(action.id, name)])
  }

  predicate IsAccepted(input: InputContract, name: Text) {
    BindingOf(input.bindings, name).Some? || IsIgnored(input, name)
  }

  function UnexpectedReports(action: FeatureAction, fields: seq<FieldFact>): seq<Diagnostic> {
    if fields == [] then []
    else
      var name := fields[|fields| - 1].name;
      UnexpectedReports(action, fields[..|fields| - 1])
      + if IsAccepted(action.input, name) then [] else [FieldUnexpected(action.id, name)]
  }

  function CodecReports(action: FeatureAction, form: FormFact, k: nat): seq<Diagnostic>
    requires k <= |action.input.bindings|
  {
    if k == 0 then []
    else
      var binding := action.input.bindings[k - 1];
      var field := FieldOf(form.fields, binding.name);
      var control := if field.Some? then IncompatibleControl(field.value.controls, binding.decode) else None;
      CodecReports(action, form, k - 1)
      + if field.Some? && control.Some?
        then [CodecMismatch(action.id, k - 1, |field.value.controls|, control.value)] else []
  }

  function ActionReports(action: FeatureAction, form: FormFact): Result<seq<Diagnostic>, IndexFailure> {
    var resolved :- ResolveAction(action, form);
    var missing :- MissingReports(action, form, Sort(TextAtMost, action.input.required));
    Success(RouteReports(action, form, resolved) + UnsupportedReports(action, form.unsupported) + missing
            + UnexpectedReports(action, form.fields) + CodecReports(action, form, |action.input.bindings|))
  }

  function DocumentAt(documents: seq<Document>, path: Text): Option<Document> {
    if documents == [] then None
    else if documents[0].path == path then Some(documents[0])
    else DocumentAt(documents[1..], path)
  }

  function LinkedForms(forms: seq<IndexedForm>, formId: Text): Result<seq<FormFact>, IndexFailure> {
    if forms == [] then Success([])
    else
      var form := forms[|forms| - 1];
      var before :- LinkedForms(forms[..|forms| - 1], formId);
      if form.identity.Absent? then Success(before)
      else if !form.identity.Known? then Failure(IdentityUnresolved)
      else if form.identity.value != formId then Success(before)
      else
        var fact :- Interpret(form);
        Success(before + [fact])
  }

  function LinkedForm(documents: seq<Document>, action: FeatureAction): Result<FormFact, IndexFailure> {
    match DocumentAt(documents, action.template)
    case None => Failure(DocumentMissing)
    case Some(document) =>
      if !document.complete then Failure(InspectionIncomplete)
      else
        var forms :- LinkedForms(document.forms, action.formId);
        if |forms| == 0 then Failure(FormNotFound)
        else if |forms| > 1 then Failure(FormIdDuplicate)
        else Success(forms[0])
  }

  function FeatureReports(documents: seq<Document>, actions: seq<FeatureAction>): Result<seq<Diagnostic>, IndexFailure> {
    if actions == [] then Success([])
    else
      var action := actions[|actions| - 1];
      var before :- FeatureReports(documents, actions[..|actions| - 1]);
      var form :- LinkedForm(documents, action);
      var reports :- ActionReports(action, form);
      Success(before + reports)
  }

  // ----- The check as the program runs it -----

  method CheckAction(action: FeatureAction, form: FormFact) returns (r: Result<seq<Diagnostic>, IndexFailure>)
    ensures r == ActionReports(action, form)
  {
    var input := action.input;
    var diagnostics := [];
    if form.verb != POST_VERB {
      diagnostics := diagnostics + [MethodMismatch(action.id, form.verb)];
    }
    var resolved :- ResolveAction(action, form);
    if resolved != action.path {
      diagnostics := diagnostics + [ActionMismatch(action.id, resolved)];
    }
    assert diagnostics == RouteReports(action, form, resolved);
    for k := 0 to |form.unsupported|
      invariant diagnostics == RouteReports(action, form, resolved) + UnsupportedReports(action, form.unsupported[..k])
    {
      diagnostics := diagnostics + [ControlUnsupported(action.id, form.unsupported[k])];
    }
    assert form.unsupported[..|form.unsupported|] == form.unsupported;
    var required := Sort(TextAtMost, input.required);
    var missing :- CheckRequired(action, form, required);
    var unexpected := CheckUnexpected(action, form.fields);
    var codec := CheckCodecs(action, form);
    r := Success(diagnostics + missing + unexpected + codec);
  }

  method CheckRequired(action: FeatureAction, form: FormFact, required: seq<Text>)
    returns (r: Result<seq<Diagnostic>, IndexFailure>)
    ensures r == MissingReports(action, form, required)
  {
    var diagnostics := [];
    for k := 0 to |required|
      invariant MissingReports(action, form, required[..k]) == Success(diagnostics)
    {
      var name := required[k];
      assert required[..k + 1][..k] == required[..k];
      if MissingReports(action, form, required[..k + 1]).Failure? {
        MissingFailure(action, form, required, k + 1);
      }
      if name !in action.input.properties {
        return Failure(RequiredPropertyMissing(name));
      }
      var binding := FirstBinding(action.input.bindings, name);
      if binding == None {
        return Failure(BindingMissing(name));
      }
      assert diagnostics + [] == diagnostics;
      if FieldOf(form.fields, binding.value.name).Some? {
        continue;
      }
      diagnostics := diagnostics + [FieldMissing(action.id, name)];
    }
    assert required[..|required|] == required;
    r := Success(diagnostics);
  }

  lemma {:induction false} MissingFailure(action: FeatureAction, form: FormFact, required: seq<Text>, k: nat)
    requires k <= |required| && MissingReports(action, form, required[..k]).Failure?
    ensures MissingReports(action, form, required) == MissingReports(action, form, required[..k])
  {
    if k == |required| {
      assert required[..k] == required;
    } else {
      assert required[..|required| - 1][..k] == required[..k];
      MissingFailure(action, form, required[..|required| - 1], k);
    }
  }

  method CheckUnexpected(action: FeatureAction, fields: seq<FieldFact>) returns (diagnostics: seq<Diagnostic>)
    ensures diagnostics == UnexpectedReports(action, fields)
  {
    var accepted := (set b | b in action.input.bindings :: b.name) + (set f | f in IgnoredFields(action.input) :: f.name);
    diagnostics := [];
    for k := 0 to |fields|
      invariant diagnostics == UnexpectedReports(action, fields[..k])
    {
      assert fields[..k + 1][..k] == fields[..k];
      assert fields[k].name in accepted <==> IsAccepted(action.input, fields[k].name);
      if fields[k].name !in accepted {
        diagnostics := diagnostics + [FieldUnexpected(action.id, fields[k].name)];
      }
    }
    assert fields[..|fields|] == fields;
  }

  method CheckCodecs(action: FeatureAction, form: FormFact) returns (diagnostics: seq<Diagnostic>)
    ensures diagnostics == CodecReports(action, form, |action.input.bindings|)
  {
    diagnostics := [];
    for k := 0 to |action.input.bindings|
      invariant diagnostics == CodecReports(action, form, k)
    {
      var binding := action.input.bindings[k];
      var field := FieldOf(form.fields, binding.name);
      if field.Some? {
        var control := IncompatibleControl(field.value.controls, binding.decode);
        if control.Some? {
          diagnostics := diagnostics + [CodecMismatch(action.id, k, |field.value.controls|, control.value)];
        }
      }
    }
  }

  method FormFactsForLinkedForm(documents: seq<Document>, path: Text, formId: Text)
    returns (r: Result<seq<FormFact>, IndexFailure>)
    ensures r == match DocumentAt(documents, path)
                 case None => Failure(DocumentMissing)
                 case Some(document) => if document.complete then LinkedForms(document.forms, formId) else Failure(InspectionIncomplete)
  {
    var found := DocumentAt(documents, path);
    if found == None {
      return Failure(DocumentMissing);
    }
    if !found.value.complete {
      return Failure(InspectionIncomplete);
    }
    var forms, matches := found.value.forms, [];
    for k := 0 to |forms|
      invariant LinkedForms(forms[..k], formId) == Success(matches)
    {
      var form := forms[k];
      assert forms[..k + 1][..k] == forms[..k];
      if LinkedForms(forms[..k + 1], formId).Failure? {
        LinkedFailure(forms, formId, k + 1);
      }
      if form.identity.Absent? {
        continue;
      }
      if !form.identity.Known? {
        return Failure(IdentityUnresolved);
      }
      if form.identity.value == formId {
        var fact := InterpretForm(form);
        if fact.Failure? {
          return Failure(fact.error);
        }
        matches := matches + [fact.value];
      }
    }
    assert forms[..|forms|] == forms;
    r := Success(matches);
  }

  lemma {:induction false} LinkedFailure(forms: seq<IndexedForm>, formId: Text, k: nat)
    requires k <= |forms| && LinkedForms(forms[..k], formId).Failure?
    ensures LinkedForms(forms, formId) == LinkedForms(forms[..k], formId)
  {
    if k == |forms| {
      assert forms[..k] == forms;
    } else {
      assert forms[..|forms| - 1][..k] == forms[..k];
      LinkedFailure(forms[..|forms| - 1], formId, k);
    }
  }

  method CheckFeatureForms(documents: seq<Document>, actions: seq<FeatureAction>)
    returns (r: Result<seq<Diagnostic>, IndexFailure>)
    ensures r == FeatureReports(documents, actions)
  {
    var diagnostics := [];
    for k := 0 to |actions|
      invariant FeatureReports(documents, actions[..k]) == Success(diagnostics)
    {
      var action := actions[k];
      assert actions[..k + 1][..k] == actions[..k];
      if FeatureReports(documents, actions[..k + 1]).Failure? {
        FeatureFailure(documents, actions, k + 1);
      }
      var forms := FormFactsForLinkedForm(documents, action.template, action.formId);
      if forms.Failure? {
        return Failure(forms.error);
      }
      if |forms.value| != 1 {
        return Failure(if |forms.value| == 0 then FormNotFound else FormIdDuplicate);
      }
      var reports := CheckAction(action, forms.value[0]);
      if reports.Failure? {
        return Failure(reports.error);
      }
      diagnostics := diagnostics + reports.value;
    }
    assert actions[..|actions|] == actions;
    r := Success(diagnostics);
  }

  lemma {:induction false} FeatureFailure(documents: seq<Document>, actions: seq<FeatureAction>, k: nat)
    requires k <= |actions| && FeatureReports(documents, actions[..k]).Failure?
    ensures FeatureReports(documents, actions) == FeatureReports(documents, actions[..k])
  {
    if k == |actions| {
      assert actions[..k] == actions;
    } else {
      assert actions[..|actions| - 1][..k] == actions[..k];
      FeatureFailure(documents, actions[..|actions| - 1], k);
    }
  }
}
