/**
 The two canonicalisers of a form index: the contract package's, which finds duplicates in sets of keys and then sorts
 (packages/contract/src/form-index.ts), and the compiler's, which sorts and then compares neighbours
 (packages/compiler/src/form-index-validation.ts).
 */
module FormIndexCanonical {
  import opened Wrappers
  import opened Texts
  import opened Ranges
  import opened Sequences
  import opened Sorting
  import opened Numerals
  import opened FormIndexModel

  // The inspection and the digest take no part in the order.
  datatype IndexedDocument = IndexedDocument(path: Text, contentDigest: Text, inspection: Text, forms: seq<IndexedForm>)

  datatype FormIndex = FormIndex(producer: Text, documents: seq<IndexedDocument>)

  // ----- The order -----

  function ComparePositions(a: Position, b: Position): int {
    if a.line != b.line then a.line - b.line else a.character - b.character
  }

  function CompareRanges(a: Range, b: Range): int {
    if ComparePositions(a.start, b.start) != 0 then ComparePositions(a.start, b.start) else ComparePositions(a.end, b.end)
  }

  predicate FormAtMost(a: IndexedForm, b: IndexedForm) {
    CompareRanges(a.range, b.range) <= 0
  }

  predicate ControlAtMost(a: IndexedControl, b: IndexedControl) {
    CompareRanges(a.range, b.range) <= 0
  }

  predicate DocumentAtMost(a: IndexedDocument, b: IndexedDocument) {
    TextAtMost(a.path, b.path)
  }

  lemma OrdersTotal()
    ensures TotalPreorder(FormAtMost) && TotalPreorder(ControlAtMost) && TotalPreorder(DocumentAtMost)
  {
    TextOrderTotal();
    forall a: IndexedDocument, b: IndexedDocument ensures DocumentAtMost(a, b) || DocumentAtMost(b, a) {
      assert TextAtMost(a.path, b.path) || TextAtMost(b.path, a.path);
    }
    forall a: IndexedDocument, b: IndexedDocument, c: IndexedDocument | DocumentAtMost(a, b) && DocumentAtMost(b, c)
      ensures DocumentAtMost(a, c)
    {
      assert TextAtMost(a.path, b.path) && TextAtMost(b.path, c.path);
    }
  }

  // ----- The canonical index -----

  function CanonicalForm(form: IndexedForm): IndexedForm {
    form.(controls := Sort(ControlAtMost, form.controls))
  }

  function CanonicalDocument(document: IndexedDocument): IndexedDocument {
    document.(forms := Map(CanonicalForm, Sort(FormAtMost, document.forms)))
  }

  function CanonicalFormIndex(index: FormIndex): FormIndex {
    index.(documents := Map(CanonicalDocument, Sort(DocumentAtMost, index.documents)))
  }

  lemma MapCons<T, U>(f: T -> U, x: T, s: seq<T>)
    ensures Map(f, [x] + s) == [f(x)] + Map(f, s)
  {
  }

  lemma MapTail<T, U>(f: T -> U, s: seq<T>)
    requires s != []
    ensures Map(f, s)[0] == f(s[0]) && Map(f, s)[1..] == Map(f, s[1..])
  {
  }

  lemma {:induction false} InsertMap<T, U>(leq: (T, T) -> bool, below: (U, U) -> bool, f: T -> U, x: T, s: seq<T>)
    requires forall y :: y in s ==> leq(x, y) == below(f(x), f(y))
    ensures Map(f, Insert(leq, x, s)) == Insert(below, f(x), Map(f, s))
  {
    if s != [] {
      MapTail(f, s);
      assert s[0] in s;
      if leq(x, s[0]) {
        MapCons(f, x, s);
      } else {
        InsertMap(leq, below, f, x, s[1..]);
        MapCons(f, s[0], Insert(leq, x, s[1..]));
      }
    }
  }

  // A function that keeps the key may be applied before sorting or after.
  lemma {:induction false} SortMap<T, U>(leq: (T, T) -> bool, below: (U, U) -> bool, f: T -> U, s: seq<T>)
    requires forall x, y :: x in s && y in s ==> leq(x, y) == below(f(x), f(y))
    ensures Map(f, Sort(leq, s)) == Sort(below, Map(f, s))
  {
    if s != [] {
      SortMap(leq, below, f, s[1..]);
      var rest := Sort(leq, s[1..]);
      SortPermutes(leq, s[1..]);
      forall y | y in rest
        ensures leq(s[0], y) == below(f(s[0]), f(y))
      {
        assert y in multiset(rest) && multiset(rest) == multiset(s[1..]);
        assert y in s[1..];
        assert s[0] in s && y in s;
      }
      InsertMap(leq, below, f, s[0], rest);
      MapTail(f, s);
    }
  }

  // ----- Duplicates -----

  predicate DistinctForms(forms: seq<IndexedForm>) {
    forall i, j :: 0 <= i < j < |forms| ==> forms[i].range != forms[j].range
  }

  predicate DistinctControls(controls: seq<IndexedControl>) {
    forall i, j :: 0 <= i < j < |controls| ==> controls[i].range != controls[j].range
  }

  predicate CleanForms(forms: seq<IndexedForm>) {
    DistinctForms(forms) && forall i :: 0 <= i < |forms| ==> DistinctControls(forms[i].controls)
  }

  // Paths are compared after case folding, which is a parameter; equal paths fold to equal paths.
  predicate DistinctPaths(fold: Text -> Text, documents: seq<IndexedDocument>) {
    forall i, j :: 0 <= i < j < |documents| ==> fold(documents[i].path) != fold(documents[j].path)
  }

  predicate Clean(fold: Text -> Text, index: FormIndex) {
    && DistinctPaths(fold, index.documents)
    && forall i :: 0 <= i < |index.documents| ==> CleanForms(index.documents[i].forms)
  }

  // ----- Idempotence -----

  lemma CanonicalFormTwice(form: IndexedForm)
    ensures CanonicalForm(CanonicalForm(form)) == CanonicalForm(form)
  {
    OrdersTotal();
    SortIdempotent(ControlAtMost, form.controls);
  }

  lemma CanonicalDocumentTwice(document: IndexedDocument)
    ensures CanonicalDocument(CanonicalDocument(document)) == CanonicalDocument(document)
  {
    var sorted := Sort(FormAtMost, document.forms);
    OrdersTotal();
    SortIdempotent(FormAtMost, document.forms);
    SortMap(FormAtMost, FormAtMost, CanonicalForm, sorted);
    forall i | 0 <= i < |sorted|
      ensures CanonicalForm(CanonicalForm(sorted[i])) == CanonicalForm(sorted[i])
    {
      CanonicalFormTwice(sorted[i]);
    }
    assert Map(CanonicalForm, Map(CanonicalForm, sorted)) == Map(CanonicalForm, sorted);
  }

  lemma CanonicalTwice(index: FormIndex)
    ensures CanonicalFormIndex(CanonicalFormIndex(index)) == CanonicalFormIndex(index)
  {
    var sorted := Sort(DocumentAtMost, index.documents);
    OrdersTotal();
    SortIdempotent(DocumentAtMost, index.documents);
    SortMap(DocumentAtMost, DocumentAtMost, CanonicalDocument, sorted);
    forall i | 0 <= i < |sorted|
      ensures CanonicalDocument(CanonicalDocument(sorted[i])) == CanonicalDocument(sorted[i])
    {
      CanonicalDocumentTwice(sorted[i]);
    }
    assert Map(CanonicalDocument, Map(CanonicalDocument, sorted)) == Map(CanonicalDocument, sorted);
  }

  // ----- Order of the input does not matter -----

  lemma RangesIdentify(a: Range, b: Range)
    ensures CompareRanges(a, b) <= 0 && CompareRanges(b, a) <= 0 <==> a == b
  {
  }

  lemma ControlsPermuted(form: IndexedForm, controls: seq<IndexedControl>)
    requires DistinctControls(form.controls) && multiset(form.controls) == multiset(controls)
    ensures CanonicalForm(form.(controls := controls)) == CanonicalForm(form)
  {
    OrdersTotal();
    forall x, y | x in form.controls && y in form.controls && ControlAtMost(x, y) && ControlAtMost(y, x)
      ensures x == y
    {
      RangesIdentify(x.range, y.range);
    }
    SortInvariant(ControlAtMost, form.controls, controls);
  }

  lemma FormsPermuted(document: IndexedDocument, forms: seq<IndexedForm>)
    requires DistinctForms(document.forms) && multiset(document.forms) == multiset(forms)
    ensures CanonicalDocument(document.(forms := forms)) == CanonicalDocument(document)
  {
    OrdersTotal();
    forall x, y | x in document.forms && y in document.forms && FormAtMost(x, y) && FormAtMost(y, x)
      ensures x == y
    {
      RangesIdentify(x.range, y.range);
    }
    SortInvariant(FormAtMost, document.forms, forms);
  }

  lemma DocumentsPermuted(fold: Text -> Text, index: FormIndex, documents: seq<IndexedDocument>)
    requires DistinctPaths(fold, index.documents) && multiset(index.documents) == multiset(documents)
    ensures CanonicalFormIndex(index.(documents := documents)) == CanonicalFormIndex(index)
  {
    OrdersTotal();
    forall x, y | x in index.documents && y in index.documents && DocumentAtMost(x, y) && DocumentAtMost(y, x)
      ensures x == y
    {
      LessTotal(x.path, y.path);
    }
    SortInvariant(DocumentAtMost, index.documents, documents);
  }

  // Parts that agree once canonical may replace one another, so permutations at all three levels combine.
  lemma PartsReplaced(index: FormIndex, i: nat, document: IndexedDocument)
    requires i < |index.documents| && CanonicalDocument(index.documents[i]) == CanonicalDocument(document)
    ensures CanonicalFormIndex(index.(documents := index.documents[i := document])) == CanonicalFormIndex(index)
  {
    SortMap(DocumentAtMost, DocumentAtMost, CanonicalDocument, index.documents);
    SortMap(DocumentAtMost, DocumentAtMost, CanonicalDocument, index.documents[i := document]);
    assert Map(CanonicalDocument, index.documents[i := document]) == Map(CanonicalDocument, index.documents);
  }

  lemma FormReplaced(document: IndexedDocument, i: nat, form: IndexedForm)
    requires i < |document.forms| && CanonicalForm(document.forms[i]) == CanonicalForm(form)
    ensures CanonicalDocument(document.(forms := document.forms[i := form])) == CanonicalDocument(document)
  {
    SortMap(FormAtMost, FormAtMost, CanonicalForm, document.forms);
    SortMap(FormAtMost, FormAtMost, CanonicalForm, document.forms[i := form]);
    assert Map(CanonicalForm, document.forms[i := form]) == Map(CanonicalForm, document.forms);
  }

  // ----- Sets of range keys (the contract package) -----

  const COLON: CodeUnit := 58
  const HYPHEN: CodeUnit := 45

  function RangeKey(r: Range): Text {
    PositionKey(r.start) + [HYPHEN] + PositionKey(r.end)
  }

  function PositionKey(p: Position): Text {
    PrintMagnitude(p.line) + [COLON] + PrintMagnitude(p.character)
  }

  function LeadingDigits(s: Text): nat {
    if s == [] || !IsDigit(s[0]) then 0 else 1 + LeadingDigits(s[1..])
  }

  lemma {:induction false} DigitsCounted(a: Text, x: Text)
    requires AllDigits(a) && (x == [] || !IsDigit(x[0]))
    ensures LeadingDigits(a + x) == |a|
  {
    if a == [] {
      assert a + x == x;
    } else {
      assert (a + x)[1..] == a[1..] + x;
      DigitsCounted(a[1..], x);
    }
  }

  // A text splits in one way into digits and what begins with no digit.
  lemma DigitsEnd(a: Text, b: Text, x: Text, y: Text)
    requires AllDigits(a) && AllDigits(b) && a + x == b + y
    requires (x == [] || !IsDigit(x[0])) && (y == [] || !IsDigit(y[0]))
    ensures a == b && x == y
  {
    DigitsCounted(a, x);
    DigitsCounted(b, y);
    assert a == (a + x)[..|a|] && b == (b + y)[..|b|];
    assert x == (a + x)[|a|..] && y == (b + y)[|b|..];
  }

  lemma NumbersDiffer(m: nat, n: nat, x: Text, y: Text)
    requires PrintMagnitude(m) + x == PrintMagnitude(n) + y
    requires (x == [] || !IsDigit(x[0])) && (y == [] || !IsDigit(y[0]))
    ensures m == n && x == y
  {
    PrintedMagnitude(m);
    PrintedMagnitude(n);
    DigitsEnd(PrintMagnitude(m), PrintMagnitude(n), x, y);
  }

  lemma PositionKeysDiffer(p: Position, q: Position, x: Text, y: Text)
    requires PositionKey(p) + x == PositionKey(q) + y
    requires (x == [] || !IsDigit(x[0])) && (y == [] || !IsDigit(y[0]))
    ensures p == q && x == y
  {
    var s, t := PrintMagnitude(p.character) + x, PrintMagnitude(q.character) + y;
    ConcatAssociative(PrintMagnitude(p.line) + [COLON], PrintMagnitude(p.character), x);
    ConcatAssociative(PrintMagnitude(q.line) + [COLON], PrintMagnitude(q.character), y);
    ConcatAssociative(PrintMagnitude(p.line), [COLON], s);
    ConcatAssociative(PrintMagnitude(q.line), [COLON], t);
    NumbersDiffer(p.line, q.line, [COLON] + s, [COLON] + t);
    assert ([COLON] + s)[1..] == s && ([COLON] + t)[1..] == t;
    NumbersDiffer(p.character, q.character, x, y);
  }

  // The key under which a range is remembered identifies it.
  lemma RangeKeysDiffer(a: Range, b: Range)
    requires RangeKey(a) == RangeKey(b)
    ensures a == b
  {
    var x, y := [HYPHEN] + PositionKey(a.end), [HYPHEN] + PositionKey(b.end);
    assert RangeKey(a) == PositionKey(a.start) + x && RangeKey(b) == PositionKey(b.start) + y;
    PositionKeysDiffer(a.start, b.start, x, y);
    assert x[1..] == PositionKey(a.end) && y[1..] == PositionKey(b.end);
    assert PositionKey(a.end) + [] == PositionKey(a.end) && PositionKey(b.end) + [] == PositionKey(b.end);
    PositionKeysDiffer(a.end, b.end, [], []);
  }

  predicate RepeatedAt(ranges: seq<Range>, i: int) {
    0 <= i < |ranges| && exists j :: 0 <= j < i && ranges[j] == ranges[i]
  }

  lemma KeySeen(ranges: seq<Range>, i: nat)
    requires i < |ranges|
    ensures RangeKey(ranges[i]) in (set j | 0 <= j < i :: RangeKey(ranges[j])) <==> RepeatedAt(ranges, i)
  {
    if RangeKey(ranges[i]) in (set j | 0 <= j < i :: RangeKey(ranges[j])) {
      var j :| 0 <= j < i && RangeKey(ranges[j]) == RangeKey(ranges[i]);
      RangeKeysDiffer(ranges[j], ranges[i]);
    }
  }

  // The indices at which a key was seen before.
  method RepeatedRanges(ranges: seq<Range>) returns (repeated: seq<nat>)
    ensures forall i :: i in repeated <==> RepeatedAt(ranges, i)
    ensures repeated == [] <==> Distinct(ranges)
  {
    repeated := [];
    var seen: set<Text> := {};
    for i := 0 to |ranges|
      invariant seen == set j | 0 <= j < i :: RangeKey(ranges[j])
      invariant forall j :: j in repeated <==> j < i && RepeatedAt(ranges, j)
    {
      KeySeen(ranges, i);
      if RangeKey(ranges[i]) in seen {
        repeated := repeated + [i];
      }
      seen := seen + {RangeKey(ranges[i])};
    }
    if repeated == [] {
      forall i, j | 0 <= i < j < |ranges|
        ensures ranges[i] != ranges[j]
      {
        assert !RepeatedAt(ranges, j);
      }
    } else {
      assert repeated[0] in repeated;
    }
  }

  // ----- Neighbours in sorted order (the compiler) -----

  predicate RangeAtMost(a: Range, b: Range) {
    CompareRanges(a, b) <= 0
  }

  // The loop over neighbours, on ranges in order.
  method RejectDuplicateRanges(ranges: seq<Range>) returns (rejected: bool)
    requires Sorted(RangeAtMost, ranges)
    ensures rejected <==> !Distinct(ranges)
  {
    var index := 1;
    while index < |ranges|
      invariant forall j :: 0 < j < index && j < |ranges| ==> CompareRanges(ranges[j - 1], ranges[j]) != 0
    {
      if CompareRanges(ranges[index - 1], ranges[index]) == 0 {
        RangesIdentify(ranges[index - 1], ranges[index]);
        return true;
      }
      index := index + 1;
    }
    forall i, j | 0 <= i < j < |ranges|
      ensures ranges[i] != ranges[j]
    {
      assert RangeAtMost(ranges[i], ranges[i + 1]);
      if i + 1 < j {
        assert RangeAtMost(ranges[i + 1], ranges[j]);
      }
      assert CompareRanges(ranges[i + 1 - 1], ranges[i + 1]) != 0;
    }
    rejected := false;
  }

  // ----- The two checks agree -----

  function FormRange(form: IndexedForm): Range {
    form.range
  }

  function ControlRange(control: IndexedControl): Range {
    control.range
  }

  datatype Duplicate = PathDuplicate(document: nat) | FormDuplicate(document: nat, form: nat) | ControlDuplicate(document: nat, form: nat, control: nat)

  // The duplicates the contract package reports, found in sets as it goes.
  method DuplicateIssues(fold: Text -> Text, index: FormIndex) returns (issues: seq<Duplicate>)
    ensures issues == [] <==> Clean(fold, index)
  {
    issues := [];
    var exactPaths: set<Text>, foldedPaths: set<Text> := {}, {};
    for d := 0 to |index.documents|
      invariant exactPaths == set i | 0 <= i < d :: index.documents[i].path
      invariant foldedPaths == set i | 0 <= i < d :: fold(index.documents[i].path)
      invariant issues == [] <==> CleanUpTo(fold, index, d)
    {
      var document := index.documents[d];
      if document.path in exactPaths || fold(document.path) in foldedPaths {
        issues := issues + [PathDuplicate(d)];
      }
      exactPaths, foldedPaths := exactPaths + {document.path}, foldedPaths + {fold(document.path)};
      var inForms := FormIssues(document.forms, d);
      issues := issues + inForms;
    }
  }

  ghost predicate CleanUpTo(fold: Text -> Text, index: FormIndex, d: nat)
    requires d <= |index.documents|
  {
    && DistinctPaths(fold, index.documents[..d])
    && forall i :: 0 <= i < d ==> CleanForms(index.documents[i].forms)
  }

  method FormIssues(forms: seq<IndexedForm>, d: nat) returns (issues: seq<Duplicate>)
    ensures issues == [] <==> CleanForms(forms)
  {
    var repeated := RepeatedRanges(Map(FormRange, forms));
    issues := Map((i: nat) => FormDuplicate(d, i), repeated);
    assert issues == [] <==> DistinctForms(forms);
    ghost var formIssues := issues;
    for f := 0 to |forms|
      invariant issues == [] <==> formIssues == [] && forall i :: 0 <= i < f ==> DistinctControls(forms[i].controls)
    {
      var controls := RepeatedRanges(Map(ControlRange, forms[f].controls));
      assert controls == [] <==> DistinctControls(forms[f].controls);
      issues := issues + Map((i: nat) => ControlDuplicate(d, f, i), controls);
    }
  }

  lemma SortedControls(controls: seq<IndexedControl>)
    ensures
      var ranges := Map(ControlRange, Sort(ControlAtMost, controls));
      Sorted(RangeAtMost, ranges) && (Distinct(ranges) <==> DistinctControls(controls))
  {
    var sorted := Sort(ControlAtMost, controls);
    OrdersTotal();
    SortSorts(ControlAtMost, controls);
    SortPermutes(ControlAtMost, controls);
    if DistinctControls(controls) {
      DistinctKeysPermute(ControlRange, controls, sorted);
    }
    if Distinct(Map(ControlRange, sorted)) {
      forall i, j | 0 <= i < j < |sorted| ensures ControlRange(sorted[i]) != ControlRange(sorted[j]) {
        assert Map(ControlRange, sorted)[i] != Map(ControlRange, sorted)[j];
      }
      DistinctKeysPermute(ControlRange, sorted, controls);
      assert forall i, j :: 0 <= i < j < |controls| ==> ControlRange(controls[i]) != ControlRange(controls[j]);
    }
    forall i, j | 0 <= i < j < |sorted|
      ensures RangeAtMost(Map(ControlRange, sorted)[i], Map(ControlRange, sorted)[j])
    {
      assert ControlAtMost(sorted[i], sorted[j]);
    }
  }

  lemma SortedForms(forms: seq<IndexedForm>)
    ensures
      var ranges := Map(FormRange, Sort(FormAtMost, forms));
      Sorted(RangeAtMost, ranges) && (Distinct(ranges) <==> DistinctForms(forms))
  {
    var sorted := Sort(FormAtMost, forms);
    OrdersTotal();
    SortSorts(FormAtMost, forms);
    SortPermutes(FormAtMost, forms);
    if DistinctForms(forms) {
      DistinctKeysPermute(FormRange, forms, sorted);
    }
    if Distinct(Map(FormRange, sorted)) {
      forall i, j | 0 <= i < j < |sorted| ensures FormRange(sorted[i]) != FormRange(sorted[j]) {
        assert Map(FormRange, sorted)[i] != Map(FormRange, sorted)[j];
      }
      DistinctKeysPermute(FormRange, sorted, forms);
      assert forall i, j :: 0 <= i < j < |forms| ==> FormRange(forms[i]) != FormRange(forms[j]);
    }
    forall i, j | 0 <= i < j < |sorted|
      ensures RangeAtMost(Map(FormRange, sorted)[i], Map(FormRange, sorted)[j])
    {
      assert FormAtMost(sorted[i], sorted[j]);
    }
  }

  // The compiler sorts the controls of a form and refuses equal neighbours.
  method FormValue(form: IndexedForm) returns (r: Option<IndexedForm>)
    ensures r == if DistinctControls(form.controls) then Some(CanonicalForm(form)) else None
  {
    var controls := Sort(ControlAtMost, form.controls);
    SortedControls(form.controls);
    var rejected := RejectDuplicateRanges(Map(ControlRange, controls));
    r := if rejected then None else Some(form.(controls := controls));
  }

  method DocumentValue(document: IndexedDocument) returns (r: Option<IndexedDocument>)
    ensures r == if CleanForms(document.forms) then Some(CanonicalDocument(document)) else None
  {
    var forms: seq<IndexedForm> := [];
    for i := 0 to |document.forms|
      invariant forms == Map(CanonicalForm, document.forms[..i])
      invariant forall j :: 0 <= j < i ==> DistinctControls(document.forms[j].controls)
    {
      var form := FormValue(document.forms[i]);
      if form.None? {
        return None;
      }
      forms := forms + [form.value];
    }
    assert document.forms[..|document.forms|] == document.forms;
    SortMap(FormAtMost, FormAtMost, CanonicalForm, document.forms);
    SortedForms(forms);
    assert DistinctForms(forms) <==> DistinctForms(document.forms) by {
      assert forall i :: 0 <= i < |forms| ==> forms[i].range == document.forms[i].range;
    }
    var rejected := RejectDuplicateRanges(Map(FormRange, Sort(FormAtMost, forms)));
    r := if rejected then None else Some(document.(forms := Sort(FormAtMost, forms)));
  }

  method RejectDuplicateDocuments(fold: Text -> Text, documents: seq<IndexedDocument>) returns (rejected: bool)
    ensures rejected <==> !DistinctPaths(fold, documents)
  {
    var exact: set<Text>, folded: set<Text> := {}, {};
    for d := 0 to |documents|
      invariant exact == set i | 0 <= i < d :: documents[i].path
      invariant folded == set i | 0 <= i < d :: fold(documents[i].path)
      invariant DistinctPaths(fold, documents[..d])
    {
      if documents[d].path in exact || fold(documents[d].path) in folded {
        return true;
      }
      exact, folded := exact + {documents[d].path}, folded + {fold(documents[d].path)};
    }
    assert documents[..|documents|] == documents;
    rejected := false;
  }

  lemma SortedPaths(fold: Text -> Text, documents: seq<IndexedDocument>)
    ensures DistinctPaths(fold, Sort(DocumentAtMost, documents)) <==> DistinctPaths(fold, documents)
  {
    var sorted := Sort(DocumentAtMost, documents);
    SortPermutes(DocumentAtMost, documents);
    var key := (d: IndexedDocument) => fold(d.path);
    if DistinctPaths(fold, documents) {
      DistinctKeysPermute(key, documents, sorted);
      assert forall i, j :: 0 <= i < j < |sorted| ==> key(sorted[i]) != key(sorted[j]);
    }
    if DistinctPaths(fold, sorted) {
      DistinctKeysPermute(key, sorted, documents);
      assert forall i, j :: 0 <= i < j < |documents| ==> key(documents[i]) != key(documents[j]);
    }
  }

  // The compiler accepts an index exactly if the contract package finds no duplicate, and both give the same result.
  method CanonicalizeFormIndex(fold: Text -> Text, index: FormIndex) returns (r: Option<FormIndex>)
    ensures r == if Clean(fold, index) then Some(CanonicalFormIndex(index)) else None
  {
    var documents: seq<IndexedDocument> := [];
    for d := 0 to |index.documents|
      invariant documents == Map(CanonicalDocument, index.documents[..d])
      invariant forall j :: 0 <= j < d ==> CleanForms(index.documents[j].forms)
    {
      var document := DocumentValue(index.documents[d]);
      if document.None? {
        return None;
      }
      documents := documents + [document.value];
    }
    assert index.documents[..|index.documents|] == index.documents;
    SortMap(DocumentAtMost, DocumentAtMost, CanonicalDocument, index.documents);
    SortedPaths(fold, documents);
    assert DistinctPaths(fold, documents) <==> DistinctPaths(fold, index.documents) by {
      assert forall i :: 0 <= i < |documents| ==> documents[i].path == index.documents[i].path;
    }
    var sorted := Sort(DocumentAtMost, documents);
    var rejected := RejectDuplicateDocuments(fold, sorted);
    r := if rejected then None else Some(index.(documents := sorted));
  }
}
