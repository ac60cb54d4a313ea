/**
 When two form indices have one canonical form: exactly when documents, forms and controls are the same but for their order
 (packages/contract/src/form-index.ts, canonicalizeFormIndex).
 */
module FormIndexPermutation {
  import opened Texts
  import opened Ranges
  import opened Sequences
  import opened Sorting
  import opened FormIndexModel
  import opened FormIndexCanonical

  // The same form but for the order of its controls.
  ghost predicate SameForm(a: IndexedForm, b: IndexedForm) {
    a.(controls := []) == b.(controls := []) && multiset(a.controls) == multiset(b.controls)
  }

  ghost predicate SameForms(a: seq<IndexedForm>, b: seq<IndexedForm>) {
    |a| == |b| && forall i :: 0 <= i < |a| ==> SameForm(a[i], b[i])
  }

  // Both lists can be put in an order in which they agree form by form.
  ghost predicate FormsMatch(a: seq<IndexedForm>, b: seq<IndexedForm>) {
    exists x, y :: multiset(x) == multiset(a) && multiset(y) == multiset(b) && SameForms(x, y)
  }

  // The same document but for the order of its forms and of their controls.
  ghost predicate SameDocument(a: IndexedDocument, b: IndexedDocument) {
    a.(forms := []) == b.(forms := []) && FormsMatch(a.forms, b.forms)
  }

  ghost predicate SameDocuments(a: seq<IndexedDocument>, b: seq<IndexedDocument>) {
    |a| == |b| && forall i :: 0 <= i < |a| ==> SameDocument(a[i], b[i])
  }

  ghost predicate DocumentsMatch(a: seq<IndexedDocument>, b: seq<IndexedDocument>) {
    exists x, y :: multiset(x) == multiset(a) && multiset(y) == multiset(b) && SameDocuments(x, y)
  }

  // The same index but for the order of documents, forms and controls.
  ghost predicate SameIndex(a: FormIndex, b: FormIndex) {
    a.producer == b.producer && DocumentsMatch(a.documents, b.documents)
  }

  // ----- Forms -----

  lemma FormPermuted(a: IndexedForm, b: IndexedForm)
    requires DistinctControls(a.controls)
    ensures SameForm(a, b) <==> CanonicalForm(a) == CanonicalForm(b)
  {
    if SameForm(a, b) {
      ControlsPermuted(a, b.controls);
      assert a.(controls := b.controls) == b;
    }
    if CanonicalForm(a) == CanonicalForm(b) {
      SortPermutes(ControlAtMost, a.controls);
      SortPermutes(ControlAtMost, b.controls);
      assert CanonicalForm(a).(controls := []) == a.(controls := []);
      assert CanonicalForm(b).(controls := []) == b.(controls := []);
    }
  }

  function FormRange(f: IndexedForm): Range {
    f.range
  }

  lemma MemberOfPermuted<T>(a: seq<T>, b: seq<T>, i: nat) returns (j: nat)
    requires multiset(a) == multiset(b) && i < |a|
    ensures j < |b| && b[j] == a[i]
  {
    assert a[i] in multiset(b);
    j :| 0 <= j < |b| && b[j] == a[i];
  }

  lemma PermutedClean(a: seq<IndexedForm>, x: seq<IndexedForm>)
    requires CleanForms(a) && multiset(x) == multiset(a)
    ensures CleanForms(x)
  {
    DistinctKeysPermute(FormRange, a, x);
    forall i, j | 0 <= i < j < |x| ensures x[i].range != x[j].range {
      assert FormRange(x[i]) != FormRange(x[j]);
    }
    forall i | 0 <= i < |x| ensures DistinctControls(x[i].controls) {
      var j := MemberOfPermuted(x, a, i);
    }
  }

  lemma FormsSorted(x: seq<IndexedForm>, y: seq<IndexedForm>)
    requires CleanForms(x) && |x| == |y|
    requires forall i :: 0 <= i < |x| ==> CanonicalForm(x[i]) == CanonicalForm(y[i])
    ensures Map(CanonicalForm, Sort(FormAtMost, x)) == Map(CanonicalForm, Sort(FormAtMost, y))
  {
    SortMap(FormAtMost, FormAtMost, CanonicalForm, x);
    SortMap(FormAtMost, FormAtMost, CanonicalForm, y);
    assert Map(CanonicalForm, x) == Map(CanonicalForm, y);
  }

  lemma MatchedDistinct(x: seq<IndexedForm>, y: seq<IndexedForm>, b: seq<IndexedForm>)
    requires DistinctForms(x) && SameForms(x, y) && multiset(y) == multiset(b)
    ensures DistinctForms(b)
  {
    forall i, j | 0 <= i < j < |y| ensures FormRange(y[i]) != FormRange(y[j]) {
      assert SameForm(x[i], y[i]) && SameForm(x[j], y[j]);
    }
    DistinctKeysPermute(FormRange, y, b);
    forall i, j | 0 <= i < j < |b| ensures b[i].range != b[j].range {
      assert FormRange(b[i]) != FormRange(b[j]);
    }
  }

  // ----- Documents -----

  lemma DocumentSameCanonical(a: IndexedDocument, b: IndexedDocument)
    requires CleanForms(a.forms) && SameDocument(a, b)
    ensures CanonicalDocument(a) == CanonicalDocument(b)
  {
    var x, y :| multiset(x) == multiset(a.forms) && multiset(y) == multiset(b.forms) && SameForms(x, y);
    PermutedClean(a.forms, x);
    MatchedDistinct(x, y, b.forms);
    FormsPermuted(a, x);
    FormsPermuted(b, y);
    forall i | 0 <= i < |x| ensures CanonicalForm(x[i]) == CanonicalForm(y[i]) {
      FormPermuted(x[i], y[i]);
    }
    FormsSorted(x, y);
    assert a.(forms := []).(forms := x) == a.(forms := x) && b.(forms := []).(forms := y) == b.(forms := y);
    assert CanonicalDocument(a.(forms := x)) == CanonicalDocument(b.(forms := y));
  }

  lemma DocumentCanonicalSame(a: IndexedDocument, b: IndexedDocument)
    requires CleanForms(a.forms) && CanonicalDocument(a) == CanonicalDocument(b)
    ensures SameDocument(a, b)
  {
    var x, y := Sort(FormAtMost, a.forms), Sort(FormAtMost, b.forms);
    SortPermutes(FormAtMost, a.forms);
    SortPermutes(FormAtMost, b.forms);
    PermutedClean(a.forms, x);
    assert Map(CanonicalForm, x) == Map(CanonicalForm, y);
    forall i | 0 <= i < |x| ensures SameForm(x[i], y[i]) {
      assert Map(CanonicalForm, x)[i] == Map(CanonicalForm, y)[i];
      FormPermuted(x[i], y[i]);
    }
    assert SameForms(x, y);
    assert CanonicalDocument(a).(forms := []) == a.(forms := []);
    assert CanonicalDocument(b).(forms := []) == b.(forms := []);
  }

  // ----- Indices -----

  ghost predicate CleanDocuments(fold: Text -> Text, documents: seq<IndexedDocument>) {
    DistinctPaths(fold, documents) && forall i :: 0 <= i < |documents| ==> CleanForms(documents[i].forms)
  }

  function FoldedPath(fold: Text -> Text): IndexedDocument -> Text {
    (d: IndexedDocument) => fold(d.path)
  }

  lemma PathsPermute(fold: Text -> Text, a: seq<IndexedDocument>, x: seq<IndexedDocument>)
    requires DistinctPaths(fold, a) && multiset(x) == multiset(a)
    ensures DistinctPaths(fold, x)
  {
    var key := FoldedPath(fold);
    forall i, j | 0 <= i < j < |a| ensures key(a[i]) != key(a[j]) {
    }
    DistinctKeysPermute(key, a, x);
    forall i, j | 0 <= i < j < |x| ensures fold(x[i].path) != fold(x[j].path) {
      assert key(x[i]) != key(x[j]);
    }
  }

  lemma PermutedDocuments(fold: Text -> Text, a: seq<IndexedDocument>, x: seq<IndexedDocument>)
    requires CleanDocuments(fold, a) && multiset(x) == multiset(a)
    ensures CleanDocuments(fold, x)
  {
    PathsPermute(fold, a, x);
    forall i | 0 <= i < |x| ensures CleanForms(x[i].forms) {
      var j := MemberOfPermuted(x, a, i);
    }
  }

  lemma MatchedPaths(fold: Text -> Text, x: seq<IndexedDocument>, y: seq<IndexedDocument>, b: seq<IndexedDocument>)
    requires DistinctPaths(fold, x) && SameDocuments(x, y) && multiset(y) == multiset(b)
    ensures DistinctPaths(fold, b)
  {
    forall i, j | 0 <= i < j < |y| ensures fold(y[i].path) != fold(y[j].path) {
      assert SameDocument(x[i], y[i]) && SameDocument(x[j], y[j]);
      assert x[i].path == y[i].path && x[j].path == y[j].path;
    }
    PathsPermute(fold, y, b);
  }

  lemma DocumentsSorted(x: seq<IndexedDocument>, y: seq<IndexedDocument>)
    requires |x| == |y| && forall i :: 0 <= i < |x| ==> CanonicalDocument(x[i]) == CanonicalDocument(y[i])
    ensures Map(CanonicalDocument, Sort(DocumentAtMost, x)) == Map(CanonicalDocument, Sort(DocumentAtMost, y))
  {
    SortMap(DocumentAtMost, DocumentAtMost, CanonicalDocument, x);
    SortMap(DocumentAtMost, DocumentAtMost, CanonicalDocument, y);
    assert Map(CanonicalDocument, x) == Map(CanonicalDocument, y);
  }

  lemma IndexSameCanonical(fold: Text -> Text, a: FormIndex, b: FormIndex)
    requires Clean(fold, a) && SameIndex(a, b)
    ensures CanonicalFormIndex(a) == CanonicalFormIndex(b)
  {
    var x, y :| multiset(x) == multiset(a.documents) && multiset(y) == multiset(b.documents) && SameDocuments(x, y);
    PermutedDocuments(fold, a.documents, x);
    MatchedPaths(fold, x, y, b.documents);
    DocumentsPermuted(fold, a, x);
    DocumentsPermuted(fold, b, y);
    forall i | 0 <= i < |x| ensures CanonicalDocument(x[i]) == CanonicalDocument(y[i]) {
      DocumentSameCanonical(x[i], y[i]);
    }
    DocumentsSorted(x, y);
  }

  lemma IndexCanonicalSame(fold: Text -> Text, a: FormIndex, b: FormIndex)
    requires Clean(fold, a) && CanonicalFormIndex(a) == CanonicalFormIndex(b)
    ensures SameIndex(a, b)
  {
    var x, y := Sort(DocumentAtMost, a.documents), Sort(DocumentAtMost, b.documents);
    SortPermutes(DocumentAtMost, a.documents);
    SortPermutes(DocumentAtMost, b.documents);
    PermutedDocuments(fold, a.documents, x);
    assert Map(CanonicalDocument, x) == Map(CanonicalDocument, y);
    forall i | 0 <= i < |x| ensures SameDocument(x[i], y[i]) {
      assert Map(CanonicalDocument, x)[i] == Map(CanonicalDocument, y)[i];
      DocumentCanonicalSame(x[i], y[i]);
    }
    assert SameDocuments(x, y);
  }

  // An index free of duplicates and any other have one canonical form exactly if they are the same but for the order of their
  // documents, of the forms of each and of the controls of each of those.
  lemma CanonicalExactly(fold: Text -> Text, a: FormIndex, b: FormIndex)
    requires Clean(fold, a)
    ensures CanonicalFormIndex(a) == CanonicalFormIndex(b) <==> SameIndex(a, b)
  {
    if SameIndex(a, b) {
      IndexSameCanonical(fold, a, b);
    }
    if CanonicalFormIndex(a) == CanonicalFormIndex(b) {
      IndexCanonicalSame(fold, a, b);
    }
  }

  // ----- The canonical order -----

  ghost predicate PositionBefore(a: Position, b: Position) {
    a.line < b.line || (a.line == b.line && a.character < b.character)
  }

  // By start, then by end.
  ghost predicate RangeBefore(a: Range, b: Range) {
    PositionBefore(a.start, b.start) || (a.start == b.start && PositionBefore(a.end, b.end))
  }

  ghost predicate ControlsAscend(controls: seq<IndexedControl>) {
    forall i, j :: 0 <= i < j < |controls| ==> RangeBefore(controls[i].range, controls[j].range)
  }

  ghost predicate FormsAscend(forms: seq<IndexedForm>) {
    && (forall i, j :: 0 <= i < j < |forms| ==> RangeBefore(forms[i].range, forms[j].range))
    && forall i :: 0 <= i < |forms| ==> ControlsAscend(forms[i].controls)
  }

  // Documents by path, forms and controls by range, none twice.
  ghost predicate IndexAscends(index: FormIndex) {
    var documents := index.documents;
    && (forall i, j :: 0 <= i < j < |documents| ==> Less(documents[i].path, documents[j].path))
    && forall i :: 0 <= i < |documents| ==> FormsAscend(documents[i].forms)
  }

  lemma RangeOrder(a: Range, b: Range)
    requires CompareRanges(a, b) <= 0 && a != b
    ensures RangeBefore(a, b)
  {
  }

  function ControlRange(c: IndexedControl): Range {
    c.range
  }

  lemma ControlsSorted(controls: seq<IndexedControl>)
    requires DistinctControls(controls)
    ensures ControlsAscend(Sort(ControlAtMost, controls))
  {
    var sorted := Sort(ControlAtMost, controls);
    OrdersTotal();
    SortSorts(ControlAtMost, controls);
    SortPermutes(ControlAtMost, controls);
    DistinctKeysPermute(ControlRange, controls, sorted);
    forall i, j | 0 <= i < j < |sorted| ensures RangeBefore(sorted[i].range, sorted[j].range) {
      assert ControlAtMost(sorted[i], sorted[j]) && ControlRange(sorted[i]) != ControlRange(sorted[j]);
      RangeOrder(sorted[i].range, sorted[j].range);
    }
  }

  lemma CanonicalFormsAscend(forms: seq<IndexedForm>)
    requires CleanForms(forms)
    ensures FormsAscend(Map(CanonicalForm, Sort(FormAtMost, forms)))
  {
    var sorted := Sort(FormAtMost, forms);
    OrdersTotal();
    SortSorts(FormAtMost, forms);
    SortPermutes(FormAtMost, forms);
    PermutedClean(forms, sorted);
    forall i, j | 0 <= i < j < |sorted| ensures RangeBefore(sorted[i].range, sorted[j].range) {
      assert FormAtMost(sorted[i], sorted[j]);
      RangeOrder(sorted[i].range, sorted[j].range);
    }
    forall i | 0 <= i < |sorted| ensures ControlsAscend(CanonicalForm(sorted[i]).controls) {
      ControlsSorted(sorted[i].controls);
    }
  }

  // The canonical index is the index itself but for its order, and ascends at every level.
  lemma CanonicalAscends(fold: Text -> Text, index: FormIndex)
    requires Clean(fold, index)
    ensures SameIndex(index, CanonicalFormIndex(index)) && IndexAscends(CanonicalFormIndex(index))
  {
    CanonicalTwice(index);
    CanonicalExactly(fold, index, CanonicalFormIndex(index));
    var sorted := Sort(DocumentAtMost, index.documents);
    OrdersTotal();
    SortSorts(DocumentAtMost, index.documents);
    SortPermutes(DocumentAtMost, index.documents);
    PermutedDocuments(fold, index.documents, sorted);
    forall i, j | 0 <= i < j < |sorted| ensures Less(sorted[i].path, sorted[j].path) {
      assert DocumentAtMost(sorted[i], sorted[j]);
      LessTotal(sorted[i].path, sorted[j].path);
    }
    forall i | 0 <= i < |sorted| ensures FormsAscend(CanonicalDocument(sorted[i]).forms) {
      CanonicalFormsAscend(sorted[i].forms);
    }
  }
}
