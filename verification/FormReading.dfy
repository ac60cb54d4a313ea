/**
 What an interpreted form holds, told of the evidence it was read from: the method and the action, a field for each name some
 control sends under, and the controls that cannot be checked (packages/compiler/src/form-index-semantics.ts).
 */
module FormReading {
  import opened Wrappers
  import opened Texts
  import opened PlainObjects
  import opened Sequences
  import opened Sorting
  import opened HtmlTree
  import opened FormIndexModel
  import opened FormFacts
  import opened FormAgreement

  // ----- Method and action -----

  // GET if there is no method, and otherwise the method in ASCII upper case.
  ghost predicate VerbReads(evidence: Evidence<Text>, verb: Text) {
    match evidence
    case Absent(_) => verb == Codes("GET")
    case Known(value, _) =>
      && |verb| == |value|
      && forall i :: 0 <= i < |verb| ==> verb[i] == if Codes("a")[0] <= value[i] <= Codes("z")[0] then value[i] - 32 else value[i]
    case _ => false
  }

  ghost predicate ActionReads(evidence: ActionEvidence, action: ActionFact) {
    match evidence
    case CurrentDocument(_) => action == CurrentDocumentAction
    case ActionAttribute(Absent(_)) => action == CurrentDocumentAction
    case ActionAttribute(Known(value, _)) => action == LiteralAction(value)
    case ActionAttribute(_) => false
  }

  lemma VerbExact(evidence: Evidence<Text>, verb: Text)
    ensures VerbValue(evidence) == Success(verb) <==> VerbReads(evidence, verb)
    ensures VerbValue(evidence).Failure? <==> !Readable(evidence)
  {
    assert GET_VERB == Codes("GET");
    if evidence.Known? {
      var upper := AsciiUppercase(evidence.value);
      if VerbReads(evidence, verb) {
        assert upper == verb;
      }
    }
  }

  lemma ActionExact(evidence: ActionEvidence, action: ActionFact)
    ensures ActionValue(evidence) == Success(action) <==> ActionReads(evidence, action)
    ensures ActionValue(evidence).Failure? <==> evidence.ActionAttribute? && !Readable(evidence.evidence)
  {
  }

  // ----- Controls -----

  ghost predicate TypeReads(evidence: Evidence<InputType>, t: InputType) {
    (evidence.Known? && t == evidence.value) || (evidence.Absent? && t == NoType)
  }

  // The fact of a control that sends.
  ghost predicate ControlReads(c: IndexedControl, fact: ControlFact) {
    && c.controlKind.Known? && fact.kind == c.controlKind.value && TypeReads(c.inputType, fact.inputType)
    && c.multiple.Known? && fact.multiple == c.multiple.value && fact.range == c.range
  }

  // The control is one that cannot be checked, for one of the three reasons that are reported.
  ghost predicate Reportable(c: IndexedControl) {
    && c.successful.Unsupported?
    && (c.successful.reason == FileInput || c.successful.reason == NamedSubmitter || c.successful.reason == SubmitterRouteOverride)
    && c.controlKind.Known? && (c.controlKind.value == ButtonControl || c.controlKind.value == InputControl)
    && Readable(c.inputType) && Readable(c.name)
  }

  ghost predicate UnsupportedReads(c: IndexedControl, fact: UnsupportedFact) {
    && Reportable(c) && fact.kind == c.controlKind.value && TypeReads(c.inputType, fact.inputType)
    && (if c.name.Known? then fact.name == c.name.value else fact.name == [])
    && fact.reason == c.successful.reason && fact.range == c.range
  }

  lemma ControlExact(c: IndexedControl)
    ensures SuccessfulControl(c).Success? ==> ControlReads(c, SuccessfulControl(c).value)
    ensures SuccessfulControl(c) == Failure(ControlInvalid) <==> c.controlKind.Known? && c.controlKind.value == ButtonControl
    ensures SuccessfulControl(c).Failure? ==> SuccessfulControl(c).error in {ControlInvalid, EvidenceUnresolved}
  {
  }

  lemma UnsupportedExact(c: IndexedControl)
    requires c.successful.Unsupported?
    ensures UnsupportedControl(c).Success? <==> Reportable(c)
    ensures UnsupportedControl(c).Success? ==> UnsupportedReads(c, UnsupportedControl(c).value)
  {
  }

  // The controls that send under a name, in order.
  ghost function Senders(controls: seq<IndexedControl>, name: Text): seq<IndexedControl> {
    if controls == [] then []
    else (if Sends(controls[0], name) then [controls[0]] else []) + Senders(controls[1..], name)
  }

  lemma {:induction false} SendersAppend(controls: seq<IndexedControl>, c: IndexedControl, name: Text)
    ensures Senders(controls + [c], name) == Senders(controls, name) + if Sends(c, name) then [c] else []
  {
    if controls == [] {
      assert [c][1..] == [];
    } else {
      assert (controls + [c])[1..] == controls[1..] + [c];
      SendersAppend(controls[1..], c, name);
      ConcatAssociative(
        if Sends(controls[0], name) then [controls[0]] else [], Senders(controls[1..], name), if Sends(c, name) then [c] else []);
    }
  }

  ghost predicate Collectable(c: IndexedControl) {
    Settled(c) || Reportable(c)
  }

  ghost predicate FactsOf(facts: seq<ControlFact>, senders: seq<IndexedControl>) {
    |facts| == |senders| && forall i :: 0 <= i < |facts| ==> ControlReads(senders[i], facts[i])
  }

  // A field per name that is sent, with its senders' facts in order, in the place of the first.
  ghost predicate FieldReads(field: FieldFact, controls: seq<IndexedControl>) {
    var senders := Senders(controls, field.name);
    senders != [] && FactsOf(field.controls, senders) && field.range == senders[0].range
  }

  ghost predicate FieldsRead(fields: seq<FieldFact>, controls: seq<IndexedControl>) {
    && (forall f :: f in fields ==> FieldReads(f, controls))
    && (forall name :: Senders(controls, name) != [] ==> exists f :: f in fields && f.name == name)
  }

  ghost predicate UnsupportedAre(facts: seq<UnsupportedFact>, controls: seq<IndexedControl>) {
    forall u :: u in facts <==> exists c :: c in controls && c.successful.Unsupported? && UnsupportedReads(c, u)
  }

  lemma CollectSteps(before: Collected, c: IndexedControl)
    ensures CollectOne(before, c).Success? <==> Collectable(c)
    ensures Settled(c) && c.successful.value && c.name.Known? ==>
      SuccessfulControl(c).Success? && ControlReads(c, SuccessfulControl(c).value)
      && CollectOne(before, c).value == before.(fields := AddControl(before.fields, c.name.value, SuccessfulControl(c).value))
    ensures Settled(c) && !(c.successful.value && c.name.Known?) ==> CollectOne(before, c).value == before
    ensures Reportable(c) ==>
      UnsupportedControl(c).Success? && UnsupportedReads(c, UnsupportedControl(c).value)
      && CollectOne(before, c).value == before.(unsupported := before.unsupported + [UnsupportedControl(c).value])
  {
    if c.successful.Unsupported? {
      UnsupportedExact(c);
    }
  }

  lemma OthersUnchanged(controls: seq<IndexedControl>, c: IndexedControl, fields: seq<FieldFact>)
    requires FieldsRead(fields, controls) && forall name :: !Sends(c, name)
    ensures FieldsRead(fields, controls + [c])
  {
    forall name ensures Senders(controls + [c], name) == Senders(controls, name) {
      SendersAppend(controls, c, name);
    }
  }

  lemma FieldKept(field: FieldFact, controls: seq<IndexedControl>, c: IndexedControl)
    requires FieldReads(field, controls) && !Sends(c, field.name)
    ensures FieldReads(field, controls + [c])
  {
    SendersAppend(controls, c, field.name);
  }

  lemma FieldGrown(field: FieldFact, controls: seq<IndexedControl>, c: IndexedControl, fact: ControlFact)
    requires FieldReads(field, controls) && Sends(c, field.name) && ControlReads(c, fact)
    ensures FieldReads(field.(controls := field.controls + [fact]), controls + [c])
  {
    SendersAppend(controls, c, field.name);
  }

  lemma FieldOpened(name: Text, controls: seq<IndexedControl>, c: IndexedControl, fact: ControlFact)
    requires Senders(controls, name) == [] && Sends(c, name) && ControlReads(c, fact)
    ensures FieldReads(FieldFact(name, [fact], fact.range), controls + [c])
  {
    SendersAppend(controls, c, name);
  }

  lemma NoField(fields: seq<FieldFact>, controls: seq<IndexedControl>, name: Text)
    requires FieldsRead(fields, controls) && FieldIndex(fields, name) == |fields|
    ensures Senders(controls, name) == []
  {
    assert forall f :: f in fields ==> f.name != name;
  }

  lemma AddedFieldReads(controls: seq<IndexedControl>, c: IndexedControl, name: Text, fact: ControlFact, fields: seq<FieldFact>, i: nat)
    requires FieldsRead(fields, controls) && NamesDistinct(fields) && Sends(c, name) && ControlReads(c, fact)
    requires i < |AddControl(fields, name, fact)|
    ensures FieldReads(AddControl(fields, name, fact)[i], controls + [c])
  {
    var k := FieldIndex(fields, name);
    if i == |fields| {
      NoField(fields, controls, name);
      FieldOpened(name, controls, c, fact);
    } else {
      assert fields[i] in fields;
      if i == k {
        FieldGrown(fields[i], controls, c, fact);
      } else {
        assert fields[i].name != name;
        FieldKept(fields[i], controls, c);
      }
    }
  }

  lemma SenderAdded(controls: seq<IndexedControl>, c: IndexedControl, name: Text, fact: ControlFact, fields: seq<FieldFact>)
    requires FieldsRead(fields, controls) && NamesDistinct(fields) && Sends(c, name) && ControlReads(c, fact)
    ensures FieldsRead(AddControl(fields, name, fact), controls + [c]) && NamesDistinct(AddControl(fields, name, fact))
  {
    var after := AddControl(fields, name, fact);
    AddControlShape(fields, name, fact);
    forall f | f in after ensures FieldReads(f, controls + [c]) {
      var i: nat :| i < |after| && after[i] == f;
      AddedFieldReads(controls, c, name, fact, fields, i);
    }
    forall n | Senders(controls + [c], n) != [] ensures exists f :: f in after && f.name == n {
      SendersAppend(controls, c, n);
      if n != name {
        var f :| f in fields && f.name == n;
      }
    }
  }

  lemma UnsupportedKept(controls: seq<IndexedControl>, c: IndexedControl, facts: seq<UnsupportedFact>)
    requires UnsupportedAre(facts, controls) && !c.successful.Unsupported?
    ensures UnsupportedAre(facts, controls + [c])
  {
  }

  lemma UnsupportedAdded(controls: seq<IndexedControl>, c: IndexedControl, facts: seq<UnsupportedFact>, fact: UnsupportedFact)
    requires UnsupportedAre(facts, controls) && UnsupportedReads(c, fact)
    ensures UnsupportedAre(facts + [fact], controls + [c])
  {
    forall u ensures u in facts + [fact] <==>
      exists x :: x in controls + [c] && x.successful.Unsupported? && UnsupportedReads(x, u)
    {
      assert u in facts + [fact] <==> u in facts || u == fact;
      assert UnsupportedReads(c, u) <==> u == fact;
      assert c in controls + [c];
    }
  }

  ghost predicate CollectedReads(collected: Collected, controls: seq<IndexedControl>) {
    && FieldsRead(collected.fields, controls) && NamesDistinct(collected.fields)
    && UnsupportedAre(collected.unsupported, controls)
  }

  lemma {:induction false} CollectExact(controls: seq<IndexedControl>)
    ensures Collect(controls).Success? <==> forall c :: c in controls ==> Collectable(c)
    ensures Collect(controls).Success? ==> CollectedReads(Collect(controls).value, controls)
  {
    if controls != [] {
      var rest, last := controls[..|controls| - 1], controls[|controls| - 1];
      assert controls == rest + [last];
      CollectExact(rest);
      if Collect(rest).Success? {
        CollectNext(rest, last, Collect(rest).value);
      }
    }
  }

  lemma CollectNext(rest: seq<IndexedControl>, c: IndexedControl, before: Collected)
    requires CollectedReads(before, rest)
    ensures CollectOne(before, c).Success? <==> Collectable(c)
    ensures CollectOne(before, c).Success? ==> CollectedReads(CollectOne(before, c).value, rest + [c])
  {
    CollectSteps(before, c);
    if Reportable(c) {
      OthersUnchanged(rest, c, before.fields);
      UnsupportedAdded(rest, c, before.unsupported, UnsupportedControl(c).value);
    } else if Settled(c) {
      UnsupportedKept(rest, c, before.unsupported);
      if c.successful.value && c.name.Known? {
        SenderAdded(rest, c, c.name.value, SuccessfulControl(c).value, before.fields);
      } else {
        OthersUnchanged(rest, c, before.fields);
      }
    }
  }

  // ----- The interpreted form -----

  ghost predicate FormReadable(form: IndexedForm) {
    && form.identity.Known? && Readable(form.verb) && (form.action.ActionAttribute? ==> Readable(form.action.evidence))
    && forall c :: c in form.controls ==> Collectable(c)
  }

  ghost function ReasonText(reason: UnsupportedReason): Text {
    match reason
    case FileInput => Codes("file-input")
    case NamedSubmitter => Codes("named-submitter")
    case ProviderResourceLimit => Codes("provider-resource-limit")
    case SubmitterRouteOverride => Codes("submitter-route-override")
    case UnsupportedControlKind => Codes("unsupported-control-kind")
  }

  // Not after one another by name, then by the text of the reason.
  ghost predicate InOrder(a: UnsupportedFact, b: UnsupportedFact) {
    Less(a.name, b.name) || (a.name == b.name && !Less(ReasonText(b.reason), ReasonText(a.reason)))
  }

  ghost predicate ReadsAs(form: IndexedForm, fact: FormFact) {
    && form.identity.Known? && fact.id == form.identity.value && fact.range == form.range
    && VerbReads(form.verb, fact.verb) && ActionReads(form.action, fact.action)
    && FieldsRead(fact.fields, form.controls)
    && (forall i, j :: 0 <= i < j < |fact.fields| ==> Less(fact.fields[i].name, fact.fields[j].name))
    && UnsupportedAre(fact.unsupported, form.controls)
    && (forall i, j :: 0 <= i < j < |fact.unsupported| ==> InOrder(fact.unsupported[i], fact.unsupported[j]))
  }

  lemma ReasonOrder(a: UnsupportedReason, b: UnsupportedReason)
    ensures ReasonRank(a) <= ReasonRank(b) <==> !Less(ReasonText(b), ReasonText(a))
  {
    assert ReasonText(a)[0] < ReasonText(b)[0] || ReasonText(b)[0] < ReasonText(a)[0] || a == b;
    LessIrreflexive(ReasonText(a));
  }

  lemma UnsupportedOrder()
    ensures TotalPreorder(UnsupportedAtMost)
  {
    forall a, b, c
      ensures UnsupportedAtMost(a, b) || UnsupportedAtMost(b, a)
      ensures UnsupportedAtMost(a, b) && UnsupportedAtMost(b, c) ==> UnsupportedAtMost(a, c)
    {
      CompareTotal(a.name, b.name);
      CompareTotal(b.name, c.name);
      CompareTotal(a.name, c.name);
      CompareChain(a.name, b.name, c.name);
    }
  }

  lemma UnsupportedSorted(facts: seq<UnsupportedFact>)
    ensures var sorted := Sort(UnsupportedAtMost, facts);
      && (forall u :: u in sorted <==> u in facts)
      && forall i, j :: 0 <= i < j < |sorted| ==> InOrder(sorted[i], sorted[j])
  {
    var sorted := Sort(UnsupportedAtMost, facts);
    SortPermutes(UnsupportedAtMost, facts);
    UnsupportedOrder();
    SortSorts(UnsupportedAtMost, facts);
    forall i, j | 0 <= i < j < |sorted| ensures InOrder(sorted[i], sorted[j]) {
      assert UnsupportedAtMost(sorted[i], sorted[j]);
      CompareTotal(sorted[i].name, sorted[j].name);
      ReasonOrder(sorted[i].reason, sorted[j].reason);
    }
  }

  lemma FieldOrder()
    ensures TotalPreorder(FieldAtMost)
  {
    forall a, b, c
      ensures FieldAtMost(a, b) || FieldAtMost(b, a)
      ensures FieldAtMost(a, b) && FieldAtMost(b, c) ==> FieldAtMost(a, c)
    {
      CompareTotal(a.name, b.name);
      CompareTotal(b.name, c.name);
      CompareTotal(a.name, c.name);
      CompareChain(a.name, b.name, c.name);
    }
  }

  lemma FieldsAscend(fields: seq<FieldFact>)
    requires NamesDistinct(fields)
    ensures var sorted := Sort(FieldAtMost, fields);
      && (forall f :: f in sorted <==> f in fields)
      && forall i, j :: 0 <= i < j < |sorted| ==> Less(sorted[i].name, sorted[j].name)
  {
    var sorted := Sort(FieldAtMost, fields);
    SortPermutes(FieldAtMost, fields);
    DistinctKeysPermute((f: FieldFact) => f.name, fields, sorted);
    FieldOrder();
    SortSorts(FieldAtMost, fields);
    forall i, j | 0 <= i < j < |sorted| ensures Less(sorted[i].name, sorted[j].name) {
      assert FieldAtMost(sorted[i], sorted[j]);
      CompareTotal(sorted[i].name, sorted[j].name);
    }
  }

  lemma FieldsMoved(a: seq<FieldFact>, b: seq<FieldFact>, controls: seq<IndexedControl>)
    requires FieldsRead(a, controls) && forall f :: f in b <==> f in a
    ensures FieldsRead(b, controls)
  {
    forall name | Senders(controls, name) != [] ensures exists f :: f in b && f.name == name {
      var f :| f in a && f.name == name;
      assert f in b;
    }
  }

  lemma CollectedSorted(collected: Collected, controls: seq<IndexedControl>)
    requires CollectedReads(collected, controls)
    ensures
      var fields, unsupported := Sort(FieldAtMost, collected.fields), Sort(UnsupportedAtMost, collected.unsupported);
      && FieldsRead(fields, controls) && UnsupportedAre(unsupported, controls)
      && (forall i, j :: 0 <= i < j < |fields| ==> Less(fields[i].name, fields[j].name))
      && forall i, j :: 0 <= i < j < |unsupported| ==> InOrder(unsupported[i], unsupported[j])
  {
    FieldsAscend(collected.fields);
    FieldsMoved(collected.fields, Sort(FieldAtMost, collected.fields), controls);
    UnsupportedSorted(collected.unsupported);
  }

  // A form is interpreted exactly if its evidence can be read, and then as it reads.
  lemma InterpretExact(form: IndexedForm)
    ensures Interpret(form).Success? <==> FormReadable(form)
    ensures Interpret(form).Success? ==> ReadsAs(form, Interpret(form).value)
  {
    CollectExact(form.controls);
    VerbExact(form.verb, GET_VERB);
    ActionExact(form.action, CurrentDocumentAction);
    if Interpret(form).Success? {
      var fact, collected := Interpret(form).value, Collect(form.controls).value;
      VerbExact(form.verb, fact.verb);
      ActionExact(form.action, fact.action);
      CollectedSorted(collected, form.controls);
    }
  }
}
