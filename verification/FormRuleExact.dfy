/**
 What the reports of the static form check mean (packages/compiler/src/form-rule.ts): each kind of diagnostic appears
 exactly for its cause, and none appears exactly if form and action agree.
 */
module FormRuleExact {
  import opened Wrappers
  import opened Texts
  import opened Sorting
  import opened Contracts
  import opened FormFacts
  import opened FormRule

  ghost predicate HasField(form: FormFact, name: Text) {
    exists f :: f in form.fields && f.name == name
  }

  // The form is sent to the action's path, by its own attribute or because the page itself is declared to be there.
  predicate SentTo(action: FeatureAction, form: FormFact) {
    match form.action
    case LiteralAction(value) => value == action.path
    case CurrentDocumentAction => action.documentPath == Some(action.path)
  }

  // The controls that share a name send what a decoder takes: any number of values for a repeated one, a lone checkbox
  // for a checkbox, and else one value at most, from one control or from the radio buttons of one group.
  ghost predicate Suits(controls: seq<ControlFact>, decoder: Decoder) {
    || decoder.Repeat?
    || (decoder.decoder.CheckboxDecoder? && (controls == [] || (|controls| == 1 && IsCheckboxFact(controls[0]))))
    || (!decoder.decoder.CheckboxDecoder?
        && (|controls| <= 1 || forall c :: c in controls ==> IsRadioFact(c))
        && (forall c :: c in controls ==> !IsMultiple(c)))
  }

  // Form and action agree.
  ghost predicate Agrees(action: FeatureAction, form: FormFact) {
    && form.verb == POST_VERB && SentTo(action, form) && form.unsupported == []
    && (forall p :: p in action.input.required ==> RequiredSubmitted(action, form, p))
    && (forall f :: f in form.fields ==> IsAccepted(action.input, f.name))
    && (forall k :: 0 <= k < |action.input.bindings| ==> BindingSuited(action, form, k))
  }

  ghost predicate RequiredSubmitted(action: FeatureAction, form: FormFact, p: Text) {
    && p in action.input.properties && FirstBinding(action.input.bindings, p).Some?
    && HasField(form, FirstBinding(action.input.bindings, p).value.name)
  }

  ghost predicate BindingSuited(action: FeatureAction, form: FormFact, k: int)
    requires 0 <= k < |action.input.bindings|
  {
    var binding := action.input.bindings[k];
    var field := FieldOf(form.fields, binding.name);
    field.Some? ==> Suits(field.value.controls, binding.decode)
  }

  // ----- Each diagnostic for its cause -----

  lemma SuitedExactly(controls: seq<ControlFact>, decoder: Decoder)
    ensures IncompatibleControl(controls, decoder).None? <==> Suits(controls, decoder)
  {
  }

  // The control to blame: of several that may not share a name, the second; else the first that may send several values, or
  // the only one.
  ghost predicate Blamed(controls: seq<ControlFact>, decoder: Decoder, k: int) {
    && 0 <= k < |controls| && !Suits(controls, decoder) && decoder.Single?
    && if |controls| > 1 && (decoder.decoder.CheckboxDecoder? || exists c :: c in controls && !IsRadioFact(c)) then k == 1
       else if decoder.decoder.CheckboxDecoder? then k == 0
       else IsMultiple(controls[k]) && forall j :: 0 <= j < k ==> !IsMultiple(controls[j])
  }

  lemma BlamedExactly(controls: seq<ControlFact>, decoder: Decoder, control: ControlFact)
    ensures IncompatibleControl(controls, decoder) == Some(control) <==> exists k :: Blamed(controls, decoder, k) && controls[k] == control
  {
    SuitedExactly(controls, decoder);
    if IncompatibleControl(controls, decoder).Some? {
      var k := BlamedAt(controls, decoder);
    }
  }

  lemma BlamedAt(controls: seq<ControlFact>, decoder: Decoder) returns (k: int)
    requires IncompatibleControl(controls, decoder).Some?
    ensures Blamed(controls, decoder, k) && controls[k] == IncompatibleControl(controls, decoder).value
    ensures forall j :: Blamed(controls, decoder, j) ==> j == k
  {
    SuitedExactly(controls, decoder);
    if |controls| > 1 && (decoder.decoder.CheckboxDecoder? || exists c :: c in controls && !IsRadioFact(c)) {
      k := 1;
    } else if decoder.decoder.CheckboxDecoder? {
      k := 0;
    } else {
      k := FirstMultipleAt(controls);
    }
  }

  lemma {:induction false} FirstMultipleAt(controls: seq<ControlFact>) returns (k: nat)
    requires FirstMultiple(controls).Some?
    ensures k < |controls| && controls[k] == FirstMultiple(controls).value && IsMultiple(controls[k])
    ensures forall j :: 0 <= j < k ==> !IsMultiple(controls[j])
  {
    if IsMultiple(controls[0]) {
      k := 0;
    } else {
      k := FirstMultipleAt(controls[1..]);
      k := k + 1;
    }
  }

  // A required field is reported exactly if no field of the form carries its binding's name. The check fails exactly
  // if a required property is not declared or not bound.
  lemma {:induction false} MissingExact(action: FeatureAction, form: FormFact, required: seq<Text>, d: Diagnostic)
    ensures MissingReports(action, form, required).Success? <==>
      forall p :: p in required ==> p in action.input.properties && FirstBinding(action.input.bindings, p).Some?
    ensures MissingReports(action, form, required).Success? ==>
      (d in MissingReports(action, form, required).value <==>
       d.FieldMissing? && d.action == action.id && d.name in required && !RequiredSubmitted(action, form, d.name))
  {
    if required != [] {
      var rest, last := required[..|required| - 1], required[|required| - 1];
      assert required == rest + [last];
      MissingExact(action, form, rest, d);
      assert forall p :: p in required <==> p in rest || p == last;
      var binding := FirstBinding(action.input.bindings, last);
      if binding.Some? {
        assert FieldOf(form.fields, binding.value.name).Some? <==> HasField(form, binding.value.name);
      }
    }
  }

  // A field is reported exactly if its name is neither bound nor ignored.
  lemma {:induction false} UnexpectedExact(action: FeatureAction, fields: seq<FieldFact>, d: Diagnostic)
    ensures d in UnexpectedReports(action, fields) <==>
      d.FieldUnexpected? && d.action == action.id && !IsAccepted(action.input, d.name) && exists f :: f in fields && f.name == d.name
  {
    if fields != [] {
      var rest, last := fields[..|fields| - 1], fields[|fields| - 1];
      assert fields == rest + [last];
      UnexpectedExact(action, rest, d);
      assert forall f :: f in fields <==> f in rest || f == last;
    }
  }

  // A binding is reported exactly if the controls of its field do not suit its decoder, with the one to blame.
  lemma {:induction false} CodecExact(action: FeatureAction, form: FormFact, k: nat, d: Diagnostic)
    requires k <= |action.input.bindings|
    ensures d in CodecReports(action, form, k) <==> MismatchAt(action, form, k, d)
  {
    if k > 0 {
      CodecExact(action, form, k - 1, d);
      var binding := action.input.bindings[k - 1];
      var field := FieldOf(form.fields, binding.name);
      if d.CodecMismatch? && field.Some? {
        BlamedExactly(field.value.controls, binding.decode, d.control);
      }
    }
  }

  ghost predicate MismatchAt(action: FeatureAction, form: FormFact, k: nat, d: Diagnostic)
    requires k <= |action.input.bindings|
  {
    && d.CodecMismatch? && d.action == action.id && d.binding < k
    && (var binding := action.input.bindings[d.binding];
        var field := FieldOf(form.fields, binding.name);
        && field.Some? && d.count == |field.value.controls|
        && exists i :: Blamed(field.value.controls, binding.decode, i) && field.value.controls[i] == d.control)
  }

  lemma {:induction false} CodecSilent(action: FeatureAction, form: FormFact, k: nat)
    requires k <= |action.input.bindings|
    ensures CodecReports(action, form, k) == [] <==> forall i :: 0 <= i < k ==> BindingSuited(action, form, i)
  {
    if k > 0 {
      CodecSilent(action, form, k - 1);
      var binding := action.input.bindings[k - 1];
      var field := FieldOf(form.fields, binding.name);
      if field.Some? {
        SuitedExactly(field.value.controls, binding.decode);
      }
      var silent := field.None? || IncompatibleControl(field.value.controls, binding.decode).None?;
      assert BindingSuited(action, form, k - 1) <==> silent;
      assert CodecReports(action, form, k) == [] <==> CodecReports(action, form, k - 1) == [] && silent;
    }
  }

  lemma UnexpectedSilent(action: FeatureAction, form: FormFact)
    ensures UnexpectedReports(action, form.fields) == [] <==> forall f :: f in form.fields ==> IsAccepted(action.input, f.name)
  {
    var reports := UnexpectedReports(action, form.fields);
    if reports == [] {
      forall f | f in form.fields ensures IsAccepted(action.input, f.name) {
        UnexpectedExact(action, form.fields, FieldUnexpected(action.id, f.name));
      }
    } else {
      UnexpectedExact(action, form.fields, reports[0]);
    }
  }

  lemma MissingSilent(action: FeatureAction, form: FormFact, required: seq<Text>)
    ensures MissingReports(action, form, required) == Success([]) <==> forall p :: p in required ==> RequiredSubmitted(action, form, p)
  {
    MissingExact(action, form, required, FieldMissing(action.id, []));
    var reports := MissingReports(action, form, required);
    if reports == Success([]) {
      forall p | p in required ensures RequiredSubmitted(action, form, p) {
        MissingExact(action, form, required, FieldMissing(action.id, p));
      }
    } else if reports.Success? {
      MissingExact(action, form, required, reports.value[0]);
    }
  }

  // ----- No diagnostic exactly for agreement -----

  // An action's report is empty exactly if its form agrees with it.
  lemma CleanExactly(action: FeatureAction, form: FormFact)
    ensures ActionReports(action, form) == Success([]) <==> Agrees(action, form)
  {
    var required := Sort(TextAtMost, action.input.required);
    SortPermutes(TextAtMost, action.input.required);
    MissingSilent(action, form, required);
    UnexpectedSilent(action, form);
    CodecSilent(action, form, |action.input.bindings|);
    var resolved, missing := ResolveAction(action, form), MissingReports(action, form, required);
    if resolved.Success? && missing.Success? {
      NothingAdded(RouteReports(action, form, resolved.value), UnsupportedReports(action, form.unsupported), missing.value,
                   UnexpectedReports(action, form.fields), CodecReports(action, form, |action.input.bindings|));
      assert UnsupportedReports(action, form.unsupported) == [] <==> form.unsupported == [];
    }
  }

  lemma NothingAdded(a: seq<Diagnostic>, b: seq<Diagnostic>, c: seq<Diagnostic>, d: seq<Diagnostic>, e: seq<Diagnostic>)
    ensures a + b + c + d + e == [] <==> a == [] && b == [] && c == [] && d == [] && e == []
  {
  }

  // A feature's report is empty exactly if every action is linked to one form of its page and agrees with it.
  lemma {:induction false} FeatureSilent(documents: seq<Document>, actions: seq<FeatureAction>)
    ensures FeatureReports(documents, actions) == Success([]) <==>
      forall a :: a in actions ==> LinkedForm(documents, a).Success? && Agrees(a, LinkedForm(documents, a).value)
  {
    if actions != [] {
      var rest, last := actions[..|actions| - 1], actions[|actions| - 1];
      assert actions == rest + [last];
      FeatureSilent(documents, rest);
      if LinkedForm(documents, last).Success? {
        CleanExactly(last, LinkedForm(documents, last).value);
      }
      assert forall a :: a in actions <==> a in rest || a == last;
    }
  }
}
