/** The imports of a module, each once and in order (packages/compiler/src/typescript-source.ts, uniqueImports). */
module ModuleImports {
  import opened Texts
  import opened Ranges
  import opened Sequences
  import opened Sorting

  datatype EdgeKind = RuntimeEdge | TypeEdge

  datatype ImportFact = ImportFact(kind: EdgeKind, specifier: Text, range: Range)

  // What the printed key is made of: kind, specifier and start, with NUL between them.
  datatype Key = Key(kind: EdgeKind, specifier: Text, start: Position)

  function KeyOf(entry: ImportFact): Key {
    Key(entry.kind, entry.specifier, entry.range.start)
  }

  function KindOrder(kind: EdgeKind): int {
    if kind == RuntimeEdge then 0 else 1
  }

  function CompareImports(a: ImportFact, b: ImportFact): int {
    var bySpecifier := CompareText(a.specifier, b.specifier);
    if bySpecifier != 0 then bySpecifier else
    if a.kind != b.kind then KindOrder(a.kind) - KindOrder(b.kind) else
    if a.range.start.line != b.range.start.line then a.range.start.line - b.range.start.line
    else a.range.start.character - b.range.start.character
  }

  predicate ImportAtMost(a: ImportFact, b: ImportFact) {
    CompareImports(a, b) <= 0
  }

  // The place of the entry with a key, or the number of entries when there is none.
  function KeyIndex(entries: seq<ImportFact>, key: Key): (k: nat)
    ensures k <= |entries|
    ensures k < |entries| ==> KeyOf(entries[k]) == key
    ensures forall i :: 0 <= i < k ==> KeyOf(entries[i]) != key
  {
    if entries == [] then 0
    else
      var k := KeyIndex(entries[..|entries| - 1], key);
      if k < |entries| - 1 || KeyOf(entries[k]) == key then k else k + 1
  }

  // Setting a key of a map keeps its place if it has one.
  function Put(entries: seq<ImportFact>, entry: ImportFact): seq<ImportFact> {
    var k := KeyIndex(entries, KeyOf(entry));
    if k < |entries| then entries[k := entry] else entries + [entry]
  }

  // The values of the map after all entries were set.
  function Values(imports: seq<ImportFact>): seq<ImportFact> {
    if imports == [] then [] else Put(Values(imports[..|imports| - 1]), imports[|imports| - 1])
  }

  function UniqueImports(imports: seq<ImportFact>): seq<ImportFact> {
    Sort(ImportAtMost, Values(imports))
  }

  method CollectUniqueImports(imports: seq<ImportFact>) returns (unique: seq<ImportFact>)
    ensures unique == UniqueImports(imports)
  {
    var byKey: seq<ImportFact> := [];
    for i := 0 to |imports|
      invariant byKey == Values(imports[..i])
    {
      assert imports[..i + 1][..i] == imports[..i];
      var k := KeyIndex(byKey, KeyOf(imports[i]));
      byKey := if k < |byKey| then byKey[k := imports[i]] else byKey + [imports[i]];
    }
    assert imports[..|imports|] == imports;
    unique := Sort(ImportAtMost, byKey);
  }

  // ----- Each import once -----

  ghost predicate KeysDistinct(entries: seq<ImportFact>) {
    forall i, j :: 0 <= i < j < |entries| ==> KeyOf(entries[i]) != KeyOf(entries[j])
  }

  // The entry is the last of its key.
  ghost predicate LastOfKey(imports: seq<ImportFact>, entry: ImportFact) {
    exists i :: 0 <= i < |imports| && imports[i] == entry && forall j :: i < j < |imports| ==> KeyOf(imports[j]) != KeyOf(entry)
  }

  lemma LastAfter(imports: seq<ImportFact>, last: ImportFact, entry: ImportFact)
    ensures LastOfKey(imports + [last], entry) <==>
      entry == last || (KeyOf(entry) != KeyOf(last) && LastOfKey(imports, entry))
  {
    var all := imports + [last];
    if LastOfKey(all, entry) && entry != last {
      var i :| 0 <= i < |all| && all[i] == entry && forall j :: i < j < |all| ==> KeyOf(all[j]) != KeyOf(entry);
      assert i < |imports| && KeyOf(all[|imports|]) != KeyOf(entry);
      forall j | i < j < |imports| ensures KeyOf(imports[j]) != KeyOf(entry) {
        assert all[j] == imports[j];
      }
      assert imports[i] == entry;
    }
    if entry == last {
      assert all[|imports|] == entry;
    }
    if KeyOf(entry) != KeyOf(last) && LastOfKey(imports, entry) {
      var i :| 0 <= i < |imports| && imports[i] == entry && forall j :: i < j < |imports| ==> KeyOf(imports[j]) != KeyOf(entry);
      assert all[i] == entry;
    }
  }

  lemma PutMembers(entries: seq<ImportFact>, last: ImportFact, entry: ImportFact)
    requires KeysDistinct(entries)
    ensures KeysDistinct(Put(entries, last))
    ensures entry in Put(entries, last) <==> entry == last || (entry in entries && KeyOf(entry) != KeyOf(last))
  {
    var k, after := KeyIndex(entries, KeyOf(last)), Put(entries, last);
    assert after[k] == last;
    if entry in entries && KeyOf(entry) != KeyOf(last) {
      var i :| 0 <= i < |entries| && entries[i] == entry;
      assert after[i] == entry;
    }
  }

  lemma {:induction false} ValuesExact(imports: seq<ImportFact>, entry: ImportFact)
    ensures KeysDistinct(Values(imports))
    ensures entry in Values(imports) <==> LastOfKey(imports, entry)
  {
    if imports != [] {
      var rest, last := imports[..|imports| - 1], imports[|imports| - 1];
      ValuesExact(rest, entry);
      PutMembers(Values(rest), last, entry);
      LastAfter(rest, last, entry);
      assert imports == rest + [last];
    }
  }

  // By specifier, then runtime before type imports, then by position.
  ghost predicate Before(a: ImportFact, b: ImportFact) {
    || Less(a.specifier, b.specifier)
    || (a.specifier == b.specifier && a.kind == RuntimeEdge && b.kind == TypeEdge)
    || (a.specifier == b.specifier && a.kind == b.kind && StartsBefore(a.range, b.range))
  }

  lemma BeforeExact(a: ImportFact, b: ImportFact)
    ensures ImportAtMost(a, b) <==> !Before(b, a)
    ensures KeyOf(a) != KeyOf(b) ==> Before(a, b) || Before(b, a)
  {
    CompareTotal(a.specifier, b.specifier);
  }

  lemma BeforeAsymmetric(a: ImportFact, b: ImportFact)
    requires Before(a, b)
    ensures !Before(b, a) && a != b
  {
    LessIrreflexive(a.specifier);
    if Less(a.specifier, b.specifier) {
      LessAsymmetric(a.specifier, b.specifier);
    }
  }

  lemma ImportOrderTotal()
    ensures TotalPreorder(ImportAtMost)
  {
    forall a, b, c
      ensures ImportAtMost(a, b) || ImportAtMost(b, a)
      ensures ImportAtMost(a, b) && ImportAtMost(b, c) ==> ImportAtMost(a, c)
    {
      CompareTotal(a.specifier, b.specifier);
      CompareTotal(b.specifier, c.specifier);
      CompareTotal(a.specifier, c.specifier);
      CompareChain(a.specifier, b.specifier, c.specifier);
    }
  }

  // A module's imports are, of all that were collected, the last of each kind, specifier and start, each once, in order.
  lemma UniqueExact(imports: seq<ImportFact>, entry: ImportFact)
    ensures KeysDistinct(UniqueImports(imports))
    ensures entry in UniqueImports(imports) <==> LastOfKey(imports, entry)
    ensures forall i, j :: 0 <= i < j < |UniqueImports(imports)| ==> Before(UniqueImports(imports)[i], UniqueImports(imports)[j])
  {
    ValuesExact(imports, entry);
    SortPermutes(ImportAtMost, Values(imports));
    DistinctKeysPermute(KeyOf, Values(imports), UniqueImports(imports));
    ImportOrderTotal();
    SortSorts(ImportAtMost, Values(imports));
    var unique := UniqueImports(imports);
    forall i, j | 0 <= i < j < |unique| ensures Before(unique[i], unique[j]) {
      assert ImportAtMost(unique[i], unique[j]);
      BeforeExact(unique[i], unique[j]);
    }
  }
}
