/**
 When the static form check has nothing to report, told of the indexed documents themselves: which document and form an action
 is linked to, and what each control's evidence has to be (packages/compiler/src/form-index-semantics.ts, form-rule.ts).
 */
module FormAgreement {
  import opened Wrappers
  import opened Texts
  import opened PlainObjects
  import opened Sequences
  import opened HtmlTree
  import opened Contracts
  import opened FormIndexModel
  import opened FormFacts
  import opened FormRule
  import opened FormRuleExact

  // ----- The document and the form an action is linked to -----

  // The first document of this path.
  ghost predicate PageOf(documents: seq<Document>, path: Text, d: Document) {
    exists k :: 0 <= k < |documents| && documents[k] == d && d.path == path && forall j :: 0 <= j < k ==> documents[j].path != path
  }

  lemma {:induction false} DocumentExact(documents: seq<Document>, path: Text, d: Document)
    ensures DocumentAt(documents, path) == Some(d) <==> PageOf(documents, path, d)
    ensures DocumentAt(documents, path) == None <==> forall x :: x in documents ==> x.path != path
  {
    if documents != [] {
      var rest := documents[1..];
      assert documents == [documents[0]] + rest;
      DocumentExact(rest, path, d);
      if documents[0].path == path {
        assert PageOf(documents, path, documents[0]);
      } else {
        if PageOf(rest, path, d) {
          var k :| 0 <= k < |rest| && rest[k] == d && d.path == path && forall j :: 0 <= j < k ==> rest[j].path != path;
          assert documents[k + 1] == d;
        }
        if PageOf(documents, path, d) {
          var k :| 0 <= k < |documents| && documents[k] == d && d.path == path && forall j :: 0 <= j < k ==> documents[j].path != path;
          assert rest[k - 1] == d;
          forall j | 0 <= j < k - 1 ensures rest[j].path != path {
            assert rest[j] == documents[j + 1];
          }
        }
      }
    }
  }

  ghost predicate Identified(form: IndexedForm, id: Text) {
    form.identity.Known? && form.identity.value == id
  }

  ghost predicate IdsReadable(forms: seq<IndexedForm>) {
    forall f :: f in forms ==> f.identity.Known? || f.identity.Absent?
  }

  // The page is completely inspected, every form's id can be told, and only the form at `k` has the action's.
  ghost predicate LinkedAt(d: Document, formId: Text, k: int) {
    && d.complete && IdsReadable(d.forms)
    && 0 <= k < |d.forms| && Identified(d.forms[k], formId)
    && forall j :: 0 <= j < |d.forms| && Identified(d.forms[j], formId) ==> j == k
  }

  ghost predicate LinkedTo(documents: seq<Document>, action: FeatureAction, d: Document, k: int) {
    PageOf(documents, action.template, d) && LinkedAt(d, action.formId, k)
  }

  ghost predicate OnlyIdentified(forms: seq<IndexedForm>, formId: Text, k: int) {
    && 0 <= k < |forms| && Identified(forms[k], formId)
    && forall j :: 0 <= j < |forms| && Identified(forms[j], formId) ==> j == k
  }

  // The one interpreted form is that of the only form of the id.
  ghost predicate MatchesForms(forms: seq<IndexedForm>, formId: Text, facts: seq<FormFact>) {
    && (facts == [] <==> forall f :: f in forms ==> !Identified(f, formId))
    && (forall k :: OnlyIdentified(forms, formId, k) ==> |facts| == 1 && Interpret(forms[k]) == Success(facts[0]))
    && (|facts| == 1 ==> exists k :: OnlyIdentified(forms, formId, k))
  }

  lemma {:induction false} MatchesExact(forms: seq<IndexedForm>, formId: Text)
    ensures LinkedForms(forms, formId).Success? <==>
      IdsReadable(forms) && forall f :: f in forms && Identified(f, formId) ==> Interpret(f).Success?
    ensures LinkedForms(forms, formId).Success? ==> MatchesForms(forms, formId, LinkedForms(forms, formId).value)
  {
    if forms != [] {
      var rest, last := forms[..|forms| - 1], forms[|forms| - 1];
      assert forms == rest + [last];
      MatchesExact(rest, formId);
      if LinkedForms(rest, formId).Success? {
        MatchLast(rest, last, formId, LinkedForms(rest, formId).value);
      }
    }
  }

  lemma MatchLast(rest: seq<IndexedForm>, last: IndexedForm, formId: Text, before: seq<FormFact>)
    requires LinkedForms(rest, formId) == Success(before) && MatchesForms(rest, formId, before)
    ensures LinkedForms(rest + [last], formId).Success? <==>
      (last.identity.Known? || last.identity.Absent?) && (Identified(last, formId) ==> Interpret(last).Success?)
    ensures LinkedForms(rest + [last], formId).Success? ==>
      MatchesForms(rest + [last], formId, LinkedForms(rest + [last], formId).value)
  {
    assert (rest + [last])[..|rest + [last]| - 1] == rest;
    if Identified(last, formId) {
      if Interpret(last).Success? {
        MatchAdded(rest, last, formId, before, Interpret(last).value);
      }
    } else {
      MatchKept(rest, last, formId, before);
    }
  }

  lemma MatchKept(rest: seq<IndexedForm>, last: IndexedForm, formId: Text, facts: seq<FormFact>)
    requires MatchesForms(rest, formId, facts) && !Identified(last, formId)
    ensures MatchesForms(rest + [last], formId, facts)
  {
    var forms := rest + [last];
    forall k ensures OnlyIdentified(forms, formId, k) <==> OnlyIdentified(rest, formId, k) {
      assert forall j :: 0 <= j < |rest| ==> forms[j] == rest[j];
    }
  }

  lemma MatchAdded(rest: seq<IndexedForm>, last: IndexedForm, formId: Text, before: seq<FormFact>, fact: FormFact)
    requires MatchesForms(rest, formId, before) && Identified(last, formId) && Interpret(last) == Success(fact)
    ensures MatchesForms(rest + [last], formId, before + [fact])
  {
    var forms := rest + [last];
    assert forms[|rest|] == last;
    forall k | OnlyIdentified(forms, formId, k) ensures before == [] && k == |rest| {
      forall f | f in rest ensures !Identified(f, formId) {
        var j :| 0 <= j < |rest| && rest[j] == f;
        assert forms[j] == f;
      }
    }
    if before == [] {
      assert forall j :: 0 <= j < |rest| ==> rest[j] in rest && forms[j] == rest[j];
      assert OnlyIdentified(forms, formId, |rest|);
    }
  }

  // An action is linked to a form exactly if its page has the one form of its id, and the form can be interpreted.
  lemma LinkedExact(documents: seq<Document>, action: FeatureAction, fact: FormFact)
    ensures LinkedForm(documents, action) == Success(fact) <==>
      exists d, k :: LinkedTo(documents, action, d, k) && Interpret(d.forms[k]) == Success(fact)
  {
    var found := DocumentAt(documents, action.template);
    if found.Some? {
      DocumentExact(documents, action.template, found.value);
      MatchesExact(found.value.forms, action.formId);
    }
    if LinkedForm(documents, action) == Success(fact) {
      var k :| OnlyIdentified(found.value.forms, action.formId, k);
      assert LinkedTo(documents, action, found.value, k);
    }
    if d, k :| LinkedTo(documents, action, d, k) && Interpret(d.forms[k]) == Success(fact) {
      DocumentExact(documents, action.template, d);
      assert OnlyIdentified(d.forms, action.formId, k);
    }
  }

  // ----- What a form's evidence has to be -----

  // The method attribute is POST in whatever case.
  ghost predicate IsPost(verb: Evidence<Text>) {
    && verb.Known? && |verb.value| == 4
    && forall i :: 0 <= i < 4 ==> verb.value[i] == Codes("POST")[i] || verb.value[i] == Codes("post")[i]
  }

  ghost predicate Targets(action: FeatureAction, evidence: ActionEvidence) {
    match evidence
    case CurrentDocument(_) => action.documentPath == Some(action.path)
    case ActionAttribute(Absent(_)) => action.documentPath == Some(action.path)
    case ActionAttribute(Known(value, _)) => value == action.path
    case ActionAttribute(_) => false
  }

  ghost predicate Readable<T>(evidence: Evidence<T>) {
    evidence.Known? || evidence.Absent?
  }

  // It is known whether the control is successful, and everything about it is if it is.
  ghost predicate Settled(c: IndexedControl) {
    && c.successful.Known?
    && (c.successful.value ==> Readable(c.name))
    && (c.successful.value && c.name.Known? ==>
          && c.controlKind.Known? && c.controlKind.value != ButtonControl
          && c.multiplicity.Known? && c.multiple.Known? && Readable(c.inputType))
  }

  ghost predicate Sends(c: IndexedControl, name: Text) {
    c.successful.Known? && c.successful.value && c.name.Known? && c.name.value == name
  }

  ghost predicate IsInputOf(c: IndexedControl, t: InputType) {
    c.controlKind.Known? && c.controlKind.value == InputControl && c.inputType.Known? && c.inputType.value == t
  }

  // The control may send several values under its name.
  ghost predicate SendsMany(c: IndexedControl) {
    || IsInputOf(c, CheckboxType)
    || (c.controlKind.Known? && c.controlKind.value == SelectControl && c.multiple.Known? && c.multiple.value)
  }

  ghost predicate OneSends(controls: seq<IndexedControl>, name: Text) {
    forall i, j :: 0 <= i < j < |controls| ==> !(Sends(controls[i], name) && Sends(controls[j], name))
  }

  // What sends under the name suits the decoder: anything suits a repeated one, a lone checkbox a checkbox, and otherwise no
  // control sends several values and several controls are radio buttons.
  ghost predicate NameSuits(controls: seq<IndexedControl>, name: Text, decoder: Decoder) {
    match decoder
    case Repeat(_) => true
    case Single(CheckboxDecoder(_, _)) =>
      OneSends(controls, name) && forall c :: c in controls && Sends(c, name) ==> IsInputOf(c, CheckboxType)
    case Single(_) =>
      && (OneSends(controls, name) || forall c :: c in controls && Sends(c, name) ==> IsInputOf(c, RadioType))
      && forall c :: c in controls && Sends(c, name) ==> !SendsMany(c)
  }

  ghost predicate FirstBound(bindings: seq<Binding>, property: Text, k: int) {
    && 0 <= k < |bindings| && bindings[k].path == [property]
    && forall j :: 0 <= j < k ==> bindings[j].path != [property]
  }

  // A required property is declared, and some control sends under the name of the first binding to it.
  ghost predicate RequiredSent(action: FeatureAction, controls: seq<IndexedControl>, property: Text) {
    && property in action.input.properties
    && exists k, c :: FirstBound(action.input.bindings, property, k) && c in controls && Sends(c, action.input.bindings[k].name)
  }

  ghost predicate Expected(input: InputContract, name: Text) {
    || (exists b :: b in input.bindings && b.name == name)
    || (input.ignored.Some? && exists f :: f in input.ignored.value && f.name == name)
  }

  // Form and action agree, control by control.
  ghost predicate FormAgrees(action: FeatureAction, form: IndexedForm) {
    && form.identity.Known? && IsPost(form.verb) && Targets(action, form.action)
    && (forall c :: c in form.controls ==> Settled(c))
    && (forall p :: p in action.input.required ==> RequiredSent(action, form.controls, p))
    && (forall c, name :: c in form.controls && Sends(c, name) ==> Expected(action.input, name))
    && (forall b :: b in action.input.bindings ==> NameSuits(form.controls, b.name, b.decode))
  }

  // ----- Interpretation against the evidence -----

  lemma PostExact(verb: Evidence<Text>)
    ensures VerbValue(verb) == Success(POST_VERB) <==> IsPost(verb)
  {
    assert POST_VERB == Codes("POST") && GET_VERB != POST_VERB;
    if verb.Known? {
      var upper := AsciiUppercase(verb.value);
      assert forall i :: 0 <= i < |upper| ==> upper[i] == if 97 <= verb.value[i] <= 122 then verb.value[i] - 32 else verb.value[i];
      if IsPost(verb) {
        assert AsciiUppercase(verb.value) == POST_VERB;
      }
    }
  }

  lemma TargetExact(action: FeatureAction, form: FormFact, evidence: ActionEvidence)
    requires ActionValue(evidence) == Success(form.action)
    ensures SentTo(action, form) <==> Targets(action, evidence)
  {
  }

  lemma ControlRead(c: IndexedControl)
    requires Settled(c) && c.successful.value && c.name.Known?
    ensures SuccessfulControl(c).Success?
    ensures IsRadioFact(FactOrDefault(c)) <==> IsInputOf(c, RadioType)
    ensures IsCheckboxFact(FactOrDefault(c)) <==> IsInputOf(c, CheckboxType)
    ensures IsMultiple(FactOrDefault(c)) <==> SendsMany(c)
  {
  }

  // Every control is collected, none as unsupported, exactly if all are settled.
  lemma {:induction false} CollectSettled(controls: seq<IndexedControl>)
    ensures (Collect(controls).Success? && Collect(controls).value.unsupported == []) <==> forall c :: c in controls ==> Settled(c)
  {
    if controls != [] {
      var rest, last := controls[..|controls| - 1], controls[|controls| - 1];
      assert controls == rest + [last];
      CollectSettled(rest);
      if Collect(rest).Success? {
        CollectLast(Collect(rest).value, last);
      }
    }
  }

  lemma CollectLast(before: Collected, c: IndexedControl)
    ensures (CollectOne(before, c).Success? && CollectOne(before, c).value.unsupported == []) <==>
      before.unsupported == [] && Settled(c)
  {
  }

  lemma {:induction false} FilteredOnce<T(!new)>(keep: T -> bool, s: seq<T>)
    ensures |Filter(keep, s)| <= 1 <==> forall i, j :: 0 <= i < j < |s| ==> !(keep(s[i]) && keep(s[j]))
  {
    if s != [] {
      var rest, last := s[..|s| - 1], s[|s| - 1];
      FilteredOnce(keep, rest);
      if keep(last) && Filter(keep, rest) != [] {
        assert Filter(keep, rest)[0] in Filter(keep, rest);
        var i :| 0 <= i < |rest| && rest[i] == Filter(keep, rest)[0];
        assert keep(s[i]) && keep(s[|s| - 1]);
      }
      if keep(last) && Filter(keep, rest) == [] {
        forall i | 0 <= i < |rest| ensures !keep(s[i]) {
          assert s[i] in rest;
        }
      }
    }
  }

  lemma SendersOnce(controls: seq<IndexedControl>, name: Text)
    ensures |Submitting(controls, name)| <= 1 <==> OneSends(controls, name)
  {
    FilteredOnce(SubmitsUnder(name), controls);
  }

  lemma SendersExact(controls: seq<IndexedControl>, name: Text)
    ensures Submitting(controls, name) == [] <==> forall c :: c in controls ==> !Sends(c, name)
    ensures forall f :: f in Submitting(controls, name) <==> exists c :: c in controls && Sends(c, name) && f == FactOrDefault(c)
  {
    var senders, facts := Filter(SubmitsUnder(name), controls), Submitting(controls, name);
    forall f ensures f in facts <==> exists c :: c in controls && Sends(c, name) && f == FactOrDefault(c) {
      if f in facts {
        var i :| 0 <= i < |facts| && facts[i] == f;
        assert senders[i] in senders && f == FactOrDefault(senders[i]);
      }
      if c :| c in controls && Sends(c, name) && f == FactOrDefault(c) {
        var i :| 0 <= i < |senders| && senders[i] == c;
        assert facts[i] == f;
      }
    }
    if facts != [] {
      assert facts[0] in facts;
    }
    if c :| c in controls && Sends(c, name) {
      assert FactOrDefault(c) in facts;
    }
  }

  // What holds of the fact of each sender exactly if it holds of the sender holds of all facts if of all senders.
  lemma FactsAll(controls: seq<IndexedControl>, name: Text, ofFact: ControlFact -> bool, ofControl: IndexedControl -> bool)
    requires forall c :: c in controls && Sends(c, name) ==> (ofFact(FactOrDefault(c)) <==> ofControl(c))
    ensures (forall f :: f in Submitting(controls, name) ==> ofFact(f)) <==>
      (forall c :: c in controls && Sends(c, name) ==> ofControl(c))
  {
    SendersExact(controls, name);
    forall c | c in controls && Sends(c, name) ensures FactOrDefault(c) in Submitting(controls, name) {
    }
  }

  lemma SendersRead(controls: seq<IndexedControl>, name: Text)
    requires forall c :: c in controls ==> Settled(c)
    ensures var facts := Submitting(controls, name);
      && ((forall f :: f in facts ==> IsRadioFact(f)) <==> forall c :: c in controls && Sends(c, name) ==> IsInputOf(c, RadioType))
      && ((forall f :: f in facts ==> IsCheckboxFact(f)) <==> forall c :: c in controls && Sends(c, name) ==> IsInputOf(c, CheckboxType))
      && ((forall f :: f in facts ==> !IsMultiple(f)) <==> forall c :: c in controls && Sends(c, name) ==> !SendsMany(c))
  {
    forall c | c in controls && Sends(c, name)
      ensures IsRadioFact(FactOrDefault(c)) <==> IsInputOf(c, RadioType)
      ensures IsCheckboxFact(FactOrDefault(c)) <==> IsInputOf(c, CheckboxType)
      ensures IsMultiple(FactOrDefault(c)) <==> SendsMany(c)
    {
      ControlRead(c);
    }
    FactsAll(controls, name, f => IsRadioFact(f), c => IsInputOf(c, RadioType));
    FactsAll(controls, name, f => IsCheckboxFact(f), c => IsInputOf(c, CheckboxType));
    FactsAll(controls, name, f => !IsMultiple(f), c => !SendsMany(c));
  }

  lemma NameSuitsExactly(controls: seq<IndexedControl>, name: Text, decoder: Decoder)
    requires forall c :: c in controls ==> Settled(c)
    ensures Suits(Submitting(controls, name), decoder) <==> NameSuits(controls, name, decoder)
  {
    var facts := Submitting(controls, name);
    SendersRead(controls, name);
    SendersOnce(controls, name);
    LoneCheckbox(facts);
  }

  lemma LoneCheckbox(facts: seq<ControlFact>)
    ensures (facts == [] || (|facts| == 1 && IsCheckboxFact(facts[0]))) <==>
      |facts| <= 1 && forall f :: f in facts ==> IsCheckboxFact(f)
  {
    if |facts| == 1 {
      assert facts == [facts[0]];
    }
  }

  lemma {:induction false} FirstBindingExact(bindings: seq<Binding>, property: Text, k: int)
    requires FirstBound(bindings, property, k)
    ensures FirstBinding(bindings, property) == Some(bindings[k])
  {
    if k > 0 {
      assert FirstBound(bindings[1..], property, k - 1);
      FirstBindingExact(bindings[1..], property, k - 1);
    }
  }

  lemma {:induction false} FirstBoundExists(bindings: seq<Binding>, property: Text) returns (k: int)
    requires FirstBinding(bindings, property).Some?
    ensures FirstBound(bindings, property, k)
  {
    if bindings[0].path == [property] {
      k := 0;
    } else {
      var j := FirstBoundExists(bindings[1..], property);
      k := j + 1;
      assert forall i :: 0 < i < |bindings| ==> bindings[i] == bindings[1..][i - 1];
    }
  }

  // The interpreted form has a field of a name exactly if a control sends under it.
  lemma FieldExact(form: IndexedForm, fact: FormFact, name: Text)
    requires Interpret(form) == Success(fact)
    ensures HasField(fact, name) <==> exists c :: c in form.controls && Sends(c, name)
    ensures forall f :: f in fact.fields && f.name == name ==> f.controls == Submitting(form.controls, name)
  {
    InterpretGroups(form);
    SendersExact(form.controls, name);
  }

  lemma RequiredExact(action: FeatureAction, form: IndexedForm, fact: FormFact, p: Text)
    requires Interpret(form) == Success(fact)
    ensures RequiredSubmitted(action, fact, p) <==> RequiredSent(action, form.controls, p)
  {
    var bindings := action.input.bindings;
    if FirstBinding(bindings, p).Some? {
      var k := FirstBoundExists(bindings, p);
      FirstBindingExact(bindings, p, k);
      FieldExact(form, fact, bindings[k].name);
    }
    if k, c :| FirstBound(bindings, p, k) && c in form.controls && Sends(c, bindings[k].name) {
      FirstBindingExact(bindings, p, k);
      FieldExact(form, fact, bindings[k].name);
    }
  }

  lemma AllExpected(action: FeatureAction, form: IndexedForm, fact: FormFact)
    requires Interpret(form) == Success(fact)
    ensures (forall f :: f in fact.fields ==> IsAccepted(action.input, f.name)) <==>
      forall c, name :: c in form.controls && Sends(c, name) ==> Expected(action.input, name)
  {
    forall name
      ensures HasField(fact, name) <==> exists c :: c in form.controls && Sends(c, name)
      ensures IsAccepted(action.input, name) <==> Expected(action.input, name)
    {
      FieldExact(form, fact, name);
    }
    if forall f :: f in fact.fields ==> IsAccepted(action.input, f.name) {
      forall c, name | c in form.controls && Sends(c, name) ensures Expected(action.input, name) {
        assert HasField(fact, name);
      }
    }
    if forall c, name :: c in form.controls && Sends(c, name) ==> Expected(action.input, name) {
      forall f | f in fact.fields ensures IsAccepted(action.input, f.name) {
        assert HasField(fact, f.name);
      }
    }
  }

  lemma BindingSuitedExactly(action: FeatureAction, form: IndexedForm, fact: FormFact, k: nat)
    requires Interpret(form) == Success(fact) && k < |action.input.bindings|
    requires forall c :: c in form.controls ==> Settled(c)
    ensures var b := action.input.bindings[k];
      BindingSuited(action, fact, k) <==> NameSuits(form.controls, b.name, b.decode)
  {
    var b := action.input.bindings[k];
    FieldExact(form, fact, b.name);
    NameSuitsExactly(form.controls, b.name, b.decode);
    SendersExact(form.controls, b.name);
    if FieldOf(fact.fields, b.name).None? {
      assert Submitting(form.controls, b.name) == [];
    }
  }

  lemma InterpretReadable(form: IndexedForm)
    requires form.identity.Known? && Readable(form.verb) && ActionValue(form.action).Success?
    requires forall c :: c in form.controls ==> Settled(c)
    ensures Interpret(form).Success? && Interpret(form).value.unsupported == []
    ensures VerbValue(form.verb) == Success(Interpret(form).value.verb)
    ensures ActionValue(form.action) == Success(Interpret(form).value.action)
  {
    CollectSettled(form.controls);
  }

  // A form can be interpreted and agrees with its action exactly if its evidence does.
  lemma AgreesExactly(action: FeatureAction, form: IndexedForm)
    ensures (Interpret(form).Success? && Agrees(action, Interpret(form).value)) <==> FormAgrees(action, form)
  {
    PostExact(form.verb);
    if FormAgrees(action, form) {
      InterpretReadable(form);
      AgreesParts(action, form, Interpret(form).value);
    }
    if Interpret(form).Success? && Agrees(action, Interpret(form).value) {
      InterpretCollects(form);
      CollectSettled(form.controls);
      AgreesParts(action, form, Interpret(form).value);
    }
  }

  lemma AgreesParts(action: FeatureAction, form: IndexedForm, fact: FormFact)
    requires Interpret(form) == Success(fact) && forall c :: c in form.controls ==> Settled(c)
    requires fact.unsupported == []
    ensures Agrees(action, fact) <==> FormAgrees(action, form)
  {
    PostExact(form.verb);
    TargetExact(action, fact, form.action);
    forall p ensures RequiredSubmitted(action, fact, p) <==> RequiredSent(action, form.controls, p) {
      RequiredExact(action, form, fact, p);
    }
    AllExpected(action, form, fact);
    forall k: nat | k < |action.input.bindings|
      ensures var b := action.input.bindings[k]; BindingSuited(action, fact, k) <==> NameSuits(form.controls, b.name, b.decode)
    {
      BindingSuitedExactly(action, form, fact, k);
    }
    var bindings := action.input.bindings;
    assert (forall k :: 0 <= k < |bindings| ==> BindingSuited(action, fact, k)) <==>
      (forall b :: b in bindings ==> NameSuits(form.controls, b.name, b.decode));
  }

  // A feature's report is empty exactly if the page of every action has the one form of its id, and form and action agree.
  lemma FeatureCleanExactly(documents: seq<Document>, actions: seq<FeatureAction>)
    ensures FeatureReports(documents, actions) == Success([]) <==>
      forall a :: a in actions ==> exists d, k :: LinkedTo(documents, a, d, k) && FormAgrees(a, d.forms[k])
  {
    FeatureSilent(documents, actions);
    forall a ensures (LinkedForm(documents, a).Success? && Agrees(a, LinkedForm(documents, a).value)) <==>
      exists d, k :: LinkedTo(documents, a, d, k) && FormAgrees(a, d.forms[k])
    {
      LinkedAgrees(documents, a);
    }
  }

  lemma LinkedAgrees(documents: seq<Document>, a: FeatureAction)
    ensures (LinkedForm(documents, a).Success? && Agrees(a, LinkedForm(documents, a).value)) <==>
      exists d, k :: LinkedTo(documents, a, d, k) && FormAgrees(a, d.forms[k])
  {
    if LinkedForm(documents, a).Success? && Agrees(a, LinkedForm(documents, a).value) {
      var fact := LinkedForm(documents, a).value;
      LinkedExact(documents, a, fact);
      var d, k :| LinkedTo(documents, a, d, k) && Interpret(d.forms[k]) == Success(fact);
      AgreesExactly(a, d.forms[k]);
    }
    if d, k :| LinkedTo(documents, a, d, k) && FormAgrees(a, d.forms[k]) {
      AgreesExactly(a, d.forms[k]);
      LinkedExact(documents, a, Interpret(d.forms[k]).value);
    }
  }
}
