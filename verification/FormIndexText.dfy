/**
 The text form of an index: what is serialised parses back, and nothing else parses
 (packages/contract/src/form-index.ts and packages/compiler/src/form-index.ts, parseFormIndex and serializeFormIndex).
 JSON.stringify and JSON.parse are parameters; all that is asked of them is that parsing inverts printing.
 */
module FormIndexText {
  import opened Wrappers
  import opened Texts
  import opened Sequences
  import opened Sorting
  import opened FormIndexModel
  import opened FormIndexCanonical

  datatype Json = Json(stringify: FormIndex -> Text, parse: Text -> Option<FormIndex>)

  ghost predicate Invertible(json: Json) {
    forall v :: json.parse(json.stringify(v)) == Some(v)
  }

  function SerializeFormIndex(fold: Text -> Text, json: Json, index: FormIndex): Option<Text> {
    if Clean(fold, index) then Some(json.stringify(CanonicalFormIndex(index))) else None
  }

  function ParseFormIndex(fold: Text -> Text, json: Json, text: Text): Option<FormIndex> {
    var parsed := json.parse(text);
    if parsed.None? || !Clean(fold, parsed.value) then None
    else
      var canonical := CanonicalFormIndex(parsed.value);
      if json.stringify(canonical) == text then Some(canonical) else None
  }

  // ----- The canonical index is clean again -----

  lemma CanonicalFormsClean(document: IndexedDocument)
    requires CleanForms(document.forms)
    ensures CleanForms(CanonicalDocument(document).forms)
  {
    var sorted := Sort(FormAtMost, document.forms);
    SortPermutes(FormAtMost, document.forms);
    DistinctKeysPermute(FormRange, document.forms, sorted);
    assert forall i, j :: 0 <= i < j < |sorted| ==> FormRange(sorted[i]) != FormRange(sorted[j]);
    forall i | 0 <= i < |sorted|
      ensures DistinctControls(CanonicalForm(sorted[i]).controls)
    {
      assert sorted[i] in document.forms;
      SortedControlsDistinct(sorted[i].controls);
    }
  }

  lemma SortedControlsDistinct(controls: seq<IndexedControl>)
    requires DistinctControls(controls)
    ensures DistinctControls(Sort(ControlAtMost, controls))
  {
    var sorted := Sort(ControlAtMost, controls);
    SortPermutes(ControlAtMost, controls);
    DistinctKeysPermute(ControlRange, controls, sorted);
    assert forall i, j :: 0 <= i < j < |sorted| ==> ControlRange(sorted[i]) != ControlRange(sorted[j]);
  }

  lemma CanonicalClean(fold: Text -> Text, index: FormIndex)
    requires Clean(fold, index)
    ensures Clean(fold, CanonicalFormIndex(index))
  {
    var sorted, canonical := Sort(DocumentAtMost, index.documents), CanonicalFormIndex(index).documents;
    SortPermutes(DocumentAtMost, index.documents);
    SortedPaths(fold, index.documents);
    forall i | 0 <= i < |sorted|
      ensures canonical[i].path == sorted[i].path && CleanForms(canonical[i].forms)
    {
      assert sorted[i] in index.documents;
      CanonicalFormsClean(sorted[i]);
    }
  }

  // ----- Round trips -----

  // Parsing what was serialised gives the canonical index.
  lemma RoundTrip(fold: Text -> Text, json: Json, index: FormIndex)
    requires Invertible(json) && Clean(fold, index)
    ensures ParseFormIndex(fold, json, SerializeFormIndex(fold, json, index).value) == Some(CanonicalFormIndex(index))
  {
    var canonical := CanonicalFormIndex(index);
    assert json.parse(json.stringify(canonical)) == Some(canonical);
    CanonicalClean(fold, index);
    CanonicalTwice(index);
  }

  // A text parses exactly if some index is serialised to it, and then to the canonical form of that index.
  lemma ParsesExactly(fold: Text -> Text, json: Json, text: Text, result: FormIndex)
    requires Invertible(json)
    ensures ParseFormIndex(fold, json, text) == Some(result) <==>
      exists index :: SerializeFormIndex(fold, json, index) == Some(text) && CanonicalFormIndex(index) == result
  {
    if ParseFormIndex(fold, json, text) == Some(result) {
      assert SerializeFormIndex(fold, json, json.parse(text).value) == Some(text);
    }
    if index :| SerializeFormIndex(fold, json, index) == Some(text) && CanonicalFormIndex(index) == result {
      RoundTrip(fold, json, index);
    }
  }

  // Two indices have the same text exactly if they have the same canonical form.
  lemma SameText(fold: Text -> Text, json: Json, a: FormIndex, b: FormIndex)
    requires Invertible(json) && Clean(fold, a) && Clean(fold, b)
    ensures SerializeFormIndex(fold, json, a) == SerializeFormIndex(fold, json, b) <==> CanonicalFormIndex(a) == CanonicalFormIndex(b)
  {
    RoundTrip(fold, json, a);
    RoundTrip(fold, json, b);
  }
}
