/** The canonical-order check of the snapshot digest (internal/fixture-kit/src/workspace-snapshot.ts, workspaceSnapshotDigest). */
module SnapshotDigest {
  import opened Texts
  import opened Sequences
  import opened Sorting
  import opened Numerals
  import opened ArtifactPaths
  import opened PlainObjects
  import opened SnapshotWalk
  import opened SnapshotOrder

  // ----- The key order of JavaScript objects -----

  const MAX_INDEX_KEY := 4294967294

  // A canonical numeral below 2^32 - 1 is an array index; objects list such keys first, in numeric order.
  predicate IsIndexKey(key: Text) {
    IsMagnitude(key) && DigitsValue(key) <= MAX_INDEX_KEY
  }

  predicate IsPlainKey(key: Text) {
    !IsIndexKey(key)
  }

  function IndexValue(key: Text): nat {
    if IsMagnitude(key) then DigitsValue(key) else 0
  }

  predicate IndexAtMost(a: Text, b: Text) {
    IndexValue(a) <= IndexValue(b)
  }

  // Object.keys of an object whose keys were set in this order, none of them twice.
  function ObjectKeys(inserted: seq<Text>): seq<Text> {
    Sort(IndexAtMost, Filter(IsIndexKey, inserted)) + Filter(IsPlainKey, inserted)
  }

  function PathsOf(files: seq<Captured>): seq<Text> {
    Map((c: Captured) => c.path, files)
  }

  // workspaceSnapshotDigest computes a digest only if sorting the entries by path leaves them where they are.
  predicate DigestAccepts(inserted: seq<Text>) {
    Sort(TextAtMost, ObjectKeys(inserted)) == ObjectKeys(inserted)
  }

  // Among the files whose path is an array index, numeric order is text order, and they sort before all others.
  ghost predicate IndicesLead(paths: seq<Text>) {
    forall p, q :: p in paths && q in paths && IsIndexKey(p) && ComesLater(p, q) ==> Less(p, q)
  }

  ghost predicate ComesLater(p: Text, q: Text) {
    !IsIndexKey(q) || IndexValue(p) < IndexValue(q)
  }

  lemma SortedByIndex(keys: seq<Text>)
    ensures Sorted(IndexAtMost, Sort(IndexAtMost, keys))
    ensures forall k :: k in Sort(IndexAtMost, keys) <==> k in keys
  {
    assert TotalPreorder(IndexAtMost);
    SortSorts(IndexAtMost, keys);
    SortPermutes(IndexAtMost, keys);
  }

  lemma AcceptsSorted(keys: seq<Text>)
    ensures Sort(TextAtMost, keys) == keys <==> Sorted(TextAtMost, keys)
  {
    TextOrderTotal();
    SortSorts(TextAtMost, keys);
    if Sorted(TextAtMost, keys) {
      SortOfSorted(TextAtMost, keys);
    }
  }

  lemma SortedConcat(a: seq<Text>, b: seq<Text>)
    ensures Sorted(TextAtMost, a + b) <==>
      Sorted(TextAtMost, a) && Sorted(TextAtMost, b) && forall p, q :: p in a && q in b ==> TextAtMost(p, q)
  {
    if Sorted(TextAtMost, a + b) {
      forall i, j | 0 <= i < j < |a| ensures TextAtMost(a[i], a[j]) {
        assert (a + b)[i] == a[i] && (a + b)[j] == a[j];
      }
      forall i, j | 0 <= i < j < |b| ensures TextAtMost(b[i], b[j]) {
        assert (a + b)[|a| + i] == b[i] && (a + b)[|a| + j] == b[j];
      }
      forall p, q | p in a && q in b ensures TextAtMost(p, q) {
        var i: nat :| i < |a| && a[i] == p;
        var j: nat :| j < |b| && b[j] == q;
        assert (a + b)[i] == p && (a + b)[|a| + j] == q;
      }
    }
  }

  lemma SameIndex(p: Text, q: Text)
    requires IsMagnitude(p) && IsMagnitude(q) && IndexValue(p) == IndexValue(q)
    ensures p == q
  {
    MagnitudeIsPrinted(p);
    MagnitudeIsPrinted(q);
  }

  ghost predicate NumericIsTextual(keys: seq<Text>) {
    forall p, q :: p in keys && q in keys && IndexValue(p) < IndexValue(q) ==> Less(p, q)
  }

  // Index keys in numeric order are in text order exactly if numeric order is text order for each two of them.
  lemma IndicesSorted(keys: seq<Text>)
    requires forall k :: k in keys ==> IsIndexKey(k)
    ensures Sorted(TextAtMost, Sort(IndexAtMost, keys)) <==> NumericIsTextual(keys)
  {
    var sorted := Sort(IndexAtMost, keys);
    SortedByIndex(keys);
    if Sorted(TextAtMost, sorted) {
      forall p, q | p in keys && q in keys && IndexValue(p) < IndexValue(q) ensures Less(p, q) {
        LaterIndexGreater(sorted, p, q);
      }
    }
    if NumericIsTextual(keys) {
      NumericSorts(sorted);
    }
  }

  lemma NumericSorts(sorted: seq<Text>)
    requires Sorted(IndexAtMost, sorted) && NumericIsTextual(sorted)
    requires forall k :: k in sorted ==> IsIndexKey(k)
    ensures Sorted(TextAtMost, sorted)
  {
    forall i, j | 0 <= i < j < |sorted| ensures TextAtMost(sorted[i], sorted[j]) {
      var p, q := sorted[i], sorted[j];
      assert p in sorted && q in sorted && IndexAtMost(p, q);
      if IndexValue(p) == IndexValue(q) {
        SameIndex(p, q);
        LessIrreflexive(p);
      } else {
        assert Less(p, q);
        LessAsymmetric(p, q);
      }
    }
  }

  lemma LaterIndexGreater(sorted: seq<Text>, p: Text, q: Text)
    requires Sorted(IndexAtMost, sorted) && Sorted(TextAtMost, sorted)
    requires p in sorted && q in sorted && IndexValue(p) < IndexValue(q)
    ensures Less(p, q)
  {
    var i: nat :| i < |sorted| && sorted[i] == p;
    var j: nat :| j < |sorted| && sorted[j] == q;
    if j <= i {
    }
    assert TextAtMost(sorted[i], sorted[j]);
    LessTotal(p, q);
  }

  ghost predicate PlainAscend(paths: seq<Text>) {
    Sorted(TextAtMost, Filter(IsPlainKey, paths))
  }

  // The index keys are the numerals below 2^32 - 1, as they are printed.
  lemma IndexKeyExact(key: Text, n: nat)
    ensures IsIndexKey(key) && IndexValue(key) == n <==> n < 0xFFFF_FFFF && key == PrintMagnitude(n)
  {
    PrintedMagnitude(n);
    if IsMagnitude(key) {
      MagnitudeIsPrinted(key);
    }
  }

  // The digest is computed exactly if the plain paths ascend and the index keys lead.
  lemma AcceptsExactly(paths: seq<Text>)
    ensures DigestAccepts(paths) <==> PlainAscend(paths) && IndicesLead(paths)
  {
    var indices, plain := Filter(IsIndexKey, paths), Filter(IsPlainKey, paths);
    AcceptsSorted(ObjectKeys(paths));
    SortedByIndex(indices);
    SortedConcat(Sort(IndexAtMost, indices), plain);
    IndicesSorted(indices);
    IndicesLeadParts(paths, indices, plain);
  }

  lemma IndicesLeadParts(paths: seq<Text>, indices: seq<Text>, plain: seq<Text>)
    requires forall p :: p in indices <==> p in paths && IsIndexKey(p)
    requires forall p :: p in plain <==> p in paths && !IsIndexKey(p)
    ensures IndicesLead(paths) <==>
      && NumericIsTextual(indices)
      && (forall p, q :: p in indices && q in plain ==> TextAtMost(p, q))
  {
    if IndicesLead(paths) {
      forall p, q | p in indices && q in plain ensures TextAtMost(p, q) {
        assert ComesLater(p, q);
        LessAsymmetric(p, q);
      }
    }
    if NumericIsTextual(indices) && forall p, q :: p in indices && q in plain ==> TextAtMost(p, q) {
      forall p, q | p in paths && q in paths && IsIndexKey(p) && ComesLater(p, q) ensures Less(p, q) {
        LessTotal(p, q);
        if !IsIndexKey(q) {
          assert TextAtMost(p, q);
        }
      }
    }
  }

  // ----- Trees whose snapshot has a digest -----

  lemma {:induction false} FilterKeepsOrder(keep: Text -> bool, s: seq<Text>, i: nat, j: nat) returns (a: nat, b: nat)
    requires i < j < |s| && keep(s[i]) && keep(s[j])
    ensures a < b < |Filter(keep, s)| && Filter(keep, s)[a] == s[i] && Filter(keep, s)[b] == s[j]
  {
    var rest := s[..|s| - 1];
    if j < |rest| {
      a, b := FilterKeepsOrder(keep, rest, i, j);
    } else {
      assert rest[i] == s[i];
      a :| 0 <= a < |Filter(keep, rest)| && Filter(keep, rest)[a] == s[i];
      b := |Filter(keep, rest)|;
    }
  }

  lemma {:induction false} FilterOfSorted(keep: Text -> bool, s: seq<Text>)
    requires Sorted(TextAtMost, s)
    ensures Sorted(TextAtMost, Filter(keep, s))
  {
    if s != [] {
      var rest, last := s[..|s| - 1], s[|s| - 1];
      FilterOfSorted(keep, rest);
      forall i | 0 <= i < |Filter(keep, rest)| ensures TextAtMost(Filter(keep, rest)[i], last) {
        var p := Filter(keep, rest)[i];
        assert p in rest;
        var j: nat :| j < |rest| && rest[j] == p;
        assert TextAtMost(s[j], s[|s| - 1]);
      }
    }
  }

  // The keys of the snapshot that is taken of a tree, in the order in which the walk sets them.
  function KeysOf(entry: Entry): seq<Text> {
    PathsOf(Kept(FilesOf([], entry)))
  }

  lemma {:induction false} KeptPaths(files: seq<Captured>)
    ensures PathsOf(Kept(files)) == Filter(IsOwnPath, PathsOf(files))
  {
    if files != [] {
      KeptPaths(files[..|files| - 1]);
      assert PathsOf(files)[..|files| - 1] == PathsOf(files[..|files| - 1]);
    }
  }

  predicate IsOwnPath(path: Text) {
    path != PROTO
  }

  lemma EarlyUnitPlain(path: Text)
    requires HasEarlyUnit(path)
    ensures IsPlainKey(path) && IsOwnPath(path)
  {
  }

  // A snapshot as the walk takes it has a digest exactly if no sibling shadows a directory with files and any files
  // named by array indices come first in text order as they do in object key order.
  lemma DigestOfWalk(entry: Entry)
    requires WellNamed(entry)
    ensures DigestAccepts(KeysOf(entry)) <==> ClashFree(entry) && IndicesLead(KeysOf(entry))
  {
    var files := FilesOf([], entry);
    var paths := PathsOf(files);
    AcceptsExactly(KeysOf(entry));
    KeptPaths(files);
    if ClashFree(entry) {
      WalkInPathOrder([], entry);
      AscendingSorted(files);
      FilterOfSorted(IsOwnPath, paths);
      FilterOfSorted(IsPlainKey, KeysOf(entry));
    } else {
      var x, y := ClashDisorders([], entry);
      DisorderKept(files, x, y);
    }
  }

  lemma AscendingSorted(files: seq<Captured>)
    requires Ascending(files)
    ensures Sorted(TextAtMost, PathsOf(files))
  {
    var paths := PathsOf(files);
    forall i, j | 0 <= i < j < |paths| ensures TextAtMost(paths[i], paths[j]) {
      LessAsymmetric(files[i].path, files[j].path);
    }
  }

  lemma DisorderKept(files: seq<Captured>, x: Captured, y: Captured)
    requires Disordered(files, x, y)
    ensures !PlainAscend(Filter(IsOwnPath, PathsOf(files)))
  {
    var i, j :| 0 <= i < j < |files| && files[i] == x && files[j] == y;
    EarlyUnitPlain(x.path);
    EarlyUnitPlain(y.path);
    var a, b := FilterKeepsOrder(IsOwnPath, PathsOf(files), i, j);
    var own := Filter(IsOwnPath, PathsOf(files));
    var c, d := FilterKeepsOrder(IsPlainKey, own, a, b);
    assert !TextAtMost(Filter(IsPlainKey, own)[c], Filter(IsPlainKey, own)[d]);
  }

  // Arranging a tree with proper names makes it well named.
  ghost predicate ProperNames(entry: Entry) {
    entry.Directory? ==>
      && (forall i :: 0 <= i < |entry.entries| ==> entry.entries[i].name != [] && SLASH !in entry.entries[i].name)
      && (forall i, j :: 0 <= i < j < |entry.entries| ==> entry.entries[i].name != entry.entries[j].name)
      && (forall n :: n in entry.entries ==> ProperNames(n.entry))
  }

  lemma NamesTotal()
    ensures TotalPreorder(NameAtMost)
  {
    TextOrderTotal();
    forall a: Named, b: Named ensures NameAtMost(a, b) || NameAtMost(b, a) {
      assert TextAtMost(a.name, b.name) || TextAtMost(b.name, a.name);
    }
    forall a: Named, b: Named, c: Named | NameAtMost(a, b) && NameAtMost(b, c) ensures NameAtMost(a, c) {
      assert TextAtMost(a.name, b.name) && TextAtMost(b.name, c.name);
    }
  }

  lemma {:induction false} ArrangedWellNamed(entry: Entry)
    requires ProperNames(entry)
    ensures WellNamed(Arranged(entry))
    decreases entry, 0
  {
    if entry.Directory? {
      var arranged := ArrangedEntries(entry.entries, |entry.entries|);
      ArrangedEntriesWell(entry.entries, |entry.entries|);
      ListingWellNamed(arranged);
    }
  }

  lemma {:induction false} ArrangedEntriesWell(entries: seq<Named>, k: nat)
    requires k <= |entries| && forall n :: n in entries ==> ProperNames(n.entry)
    ensures |ArrangedEntries(entries, k)| == k
    ensures forall i :: 0 <= i < k ==> ArrangedEntries(entries, k)[i].name == entries[i].name
    ensures forall i :: 0 <= i < k ==> WellNamed(ArrangedEntries(entries, k)[i].entry)
    decreases entries, k
  {
    if k > 0 {
      ArrangedEntriesWell(entries, k - 1);
      assert entries[k - 1] in entries;
      ArrangedWellNamed(entries[k - 1].entry);
    }
  }

  function NameOf(n: Named): Text {
    n.name
  }

  lemma ListingWellNamed(entries: seq<Named>)
    requires forall i :: 0 <= i < |entries| ==> entries[i].name != [] && SLASH !in entries[i].name && WellNamed(entries[i].entry)
    requires forall i, j :: 0 <= i < j < |entries| ==> entries[i].name != entries[j].name
    ensures WellNamed(Directory(Sort(NameAtMost, entries)))
  {
    var sorted := Sort(NameAtMost, entries);
    NamesTotal();
    SortSorts(NameAtMost, entries);
    SortPermutes(NameAtMost, entries);
    DistinctKeysPermute(NameOf, entries, sorted);
    forall i | 0 <= i < |sorted|
      ensures sorted[i].name != [] && SLASH !in sorted[i].name && WellNamed(sorted[i].entry)
    {
      assert sorted[i] in entries;
    }
    forall i, j | 0 <= i < j < |sorted| ensures Less(sorted[i].name, sorted[j].name) {
      assert NameAtMost(sorted[i], sorted[j]) && NameOf(sorted[i]) != NameOf(sorted[j]);
      LessTotal(sorted[i].name, sorted[j].name);
    }
  }

  const DIRECTORY_NAME: Text := [97]                  // a
  const FILE_NAME: Text := [97, 46, 116, 120, 116]    // a.txt

  lemma NamesShadow()
    ensures Less(DIRECTORY_NAME, FILE_NAME) && Shadows(DIRECTORY_NAME, FILE_NAME)
    ensures SLASH !in DIRECTORY_NAME && SLASH !in FILE_NAME
  {
    assert DIRECTORY_NAME == FILE_NAME[..1];
    LessFromWitness(DIRECTORY_NAME, FILE_NAME, 1);
  }

  lemma BesideClashes(d: Named, e: Named, inner: Named)
    requires d == Named(DIRECTORY_NAME, Directory([inner])) && e.name == FILE_NAME && e.entry.File? && inner.entry.File?
    ensures Clashes([d, e], d, e)
  {
    NamesShadow();
    assert inner in d.entry.entries;
    assert [d, e][0] == d && [d, e][1] == e;
  }

  // `a/x` beside `a.txt`: the walk lists a/x first, the digest wants a.txt first.
  lemma DirectoryBesideExtension(x: Text, digest: Text)
    requires x == [120]
    ensures
      var root := Directory([Named(DIRECTORY_NAME, Directory([Named(x, File(1, digest))])), Named(FILE_NAME, File(1, digest))]);
      WellNamed(root) && !DigestAccepts(KeysOf(root))
  {
    var inner, e := Named(x, File(1, digest)), Named(FILE_NAME, File(1, digest));
    var d := Named(DIRECTORY_NAME, Directory([inner]));
    NamesShadow();
    BesideClashes(d, e, inner);
    assert WellNamed(d.entry) && WellNamed(e.entry);
    DigestOfWalk(Directory([d, e]));
  }
}
