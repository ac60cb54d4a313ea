/**
 The order in which the walk meets files, against the order of their joined paths that the snapshot digest demands
 (internal/fixture-kit/src/workspace-snapshot.ts, walk and workspaceSnapshotDigest).
 */
module SnapshotOrder {
  import opened Texts
  import opened ArtifactPaths
  import opened SnapshotWalk

  // Names as a file system gives them, in a directory listed by name.
  ghost predicate WellNamed(entry: Entry) {
    entry.Directory? ==>
      && (forall i :: 0 <= i < |entry.entries| ==> entry.entries[i].name != [] && SLASH !in entry.entries[i].name)
      && (forall i, j :: 0 <= i < j < |entry.entries| ==> Less(entry.entries[i].name, entry.entries[j].name))
      && (forall n :: n in entry.entries ==> WellNamed(n.entry))
  }

  predicate Bears(entry: Entry) {
    entry.File? || (entry.Directory? && exists n :: n in entry.entries && Bears(n.entry))
  }

  // A directory that holds files, and a sibling with files whose name extends the directory's by a unit below '/'.
  ghost predicate Clashes(entries: seq<Named>, d: Named, e: Named) {
    d in entries && e in entries && d.entry.Directory? && Bears(d.entry) && Bears(e.entry) && Shadows(d.name, e.name)
  }

  ghost predicate ClashFree(entry: Entry) {
    entry.Directory? ==>
      && (forall d, e :: !Clashes(entry.entries, d, e))
      && (forall n :: n in entry.entries ==> ClashFree(n.entry))
  }

  ghost predicate Ascending(files: seq<Captured>) {
    forall i, j :: 0 <= i < j < |files| ==> Less(files[i].path, files[j].path)
  }

  ghost predicate Precedes(files: seq<Captured>, x: Captured, y: Captured) {
    exists i, j :: 0 <= i < j < |files| && files[i] == x && files[j] == y
  }

  function Lead(directory: Text): Text {
    if |directory| == 0 then [] else directory + [SLASH]
  }

  // ----- Two files below different names of one directory -----

  // Which comes first is decided by the names, unless the first name is a directory that the second shadows.
  lemma AfterLead(lead: Text, name: Text, rest: Text, k: nat)
    requires k <= |name|
    ensures (lead + name + rest)[..|lead| + k] == lead + name[..k]
    ensures k < |name| ==> (lead + name + rest)[|lead| + k] == name[k]
    ensures k == |name| && rest != [] ==> (lead + name + rest)[|lead| + k] == rest[0]
  {
  }

  lemma PathOrder(lead: Text, a: Text, b: Text, x: Text, y: Text)
    requires Less(a, b) && SLASH !in a && SLASH !in b
    requires x == [] || x[0] == SLASH
    ensures if x != [] && Shadows(a, b) then Less(lead + b + y, lead + a + x) else Less(lead + a + x, lead + b + y)
  {
    var p, q := lead + a + x, lead + b + y;
    var k := LessWitness(a, b);
    var n := |lead| + k;
    AfterLead(lead, a, x, k);
    AfterLead(lead, b, y, k);
    if k == |a| {
      assert a == b[..k];
      assert b[k] in b;
    }
    if k == |a| && x != [] && b[k] < SLASH {
      LessFromWitness(q, p, n);
    } else {
      LessFromWitness(p, q, n);
    }
  }

  // The path of a file below a name is the name, or continues it with a separator.
  lemma {:induction false} PathContinues(path: Text, entry: Entry, c: Captured) returns (rest: Text)
    requires path != [] && c in FilesOf(path, entry)
    ensures c.path == path + rest
    ensures entry.Directory? <==> rest != []
    ensures rest != [] ==> rest[0] == SLASH
    decreases entry, 0
  {
    if entry.File? {
      rest := [];
      assert path + rest == path;
    } else {
      rest := PathContinuesIn(path, entry.entries, |entry.entries|, c);
    }
  }

  lemma {:induction false} PathContinuesIn(path: Text, entries: seq<Named>, k: nat, c: Captured) returns (rest: Text)
    requires path != [] && k <= |entries| && c in FilesIn(path, entries, k)
    ensures c.path == path + rest && rest != [] && rest[0] == SLASH
    decreases entries, k
  {
    var n := entries[k - 1];
    if c in FilesIn(path, entries, k - 1) {
      rest := PathContinuesIn(path, entries, k - 1, c);
    } else {
      var inner := PathContinues(Join(path, n.name), n.entry, c);
      rest := [SLASH] + n.name + inner;
      assert c.path == path + rest;
    }
  }

  // How two files below different names of one directory compare.
  lemma SiblingOrder(directory: Text, d: Named, e: Named, x: Captured, y: Captured)
    requires Less(d.name, e.name) && SLASH !in d.name && SLASH !in e.name && d.name != [] && e.name != []
    requires x in FilesOf(Join(directory, d.name), d.entry) && y in FilesOf(Join(directory, e.name), e.entry)
    ensures if d.entry.Directory? && Shadows(d.name, e.name) then Less(y.path, x.path) else Less(x.path, y.path)
  {
    var lead := Lead(directory);
    assert Join(directory, d.name) == lead + d.name && Join(directory, e.name) == lead + e.name;
    var r := PathContinues(lead + d.name, d.entry, x);
    var s := PathContinues(lead + e.name, e.entry, y);
    PathOrder(lead, d.name, e.name, r, s);
  }

  // ----- Where files come from -----

  lemma {:induction false} Origin(directory: Text, entries: seq<Named>, k: nat, c: Captured) returns (i: nat)
    requires k <= |entries| && c in FilesIn(directory, entries, k)
    ensures i < k && c in FilesOf(Join(directory, entries[i].name), entries[i].entry)
  {
    var before, own := FilesIn(directory, entries, k - 1), FilesOf(Join(directory, entries[k - 1].name), entries[k - 1].entry);
    assert FilesIn(directory, entries, k) == before + own;
    if c in before {
      i := Origin(directory, entries, k - 1, c);
    } else {
      assert c in own;
      i := k - 1;
    }
  }

  lemma {:induction false} FilesGrow(directory: Text, entries: seq<Named>, j: nat, k: nat)
    requires j <= k <= |entries|
    ensures FilesIn(directory, entries, j) <= FilesIn(directory, entries, k)
    decreases k
  {
    if j < k {
      FilesGrow(directory, entries, j, k - 1);
    }
  }

  lemma {:induction false} BearsFiles(path: Text, entry: Entry)
    ensures Bears(entry) <==> FilesOf(path, entry) != []
    decreases entry, 0
  {
    if entry.Directory? {
      BearsFilesIn(path, entry.entries, |entry.entries|);
    }
  }

  lemma {:induction false} BearsFilesIn(directory: Text, entries: seq<Named>, k: nat)
    requires k <= |entries|
    ensures (exists i :: 0 <= i < k && Bears(entries[i].entry)) <==> FilesIn(directory, entries, k) != []
    decreases entries, k
  {
    if k > 0 {
      BearsFilesIn(directory, entries, k - 1);
      BearsFiles(Join(directory, entries[k - 1].name), entries[k - 1].entry);
    }
  }

  // ----- Without a clash the walk is in path order -----

  lemma {:induction false} ClashFreeAscends(path: Text, entry: Entry)
    requires WellNamed(entry) && ClashFree(entry)
    ensures Ascending(FilesOf(path, entry))
    decreases entry, 0
  {
    if entry.Directory? {
      ClashFreeAscendsIn(path, entry.entries, |entry.entries|);
    }
  }

  lemma {:induction false} ClashFreeAscendsIn(directory: Text, entries: seq<Named>, k: nat)
    requires k <= |entries| && WellNamed(Directory(entries)) && ClashFree(Directory(entries))
    ensures Ascending(FilesIn(directory, entries, k))
    decreases entries, k
  {
    if k > 0 {
      var n := entries[k - 1];
      ClashFreeAscendsIn(directory, entries, k - 1);
      assert n in entries;
      ClashFreeAscends(Join(directory, n.name), n.entry);
      BlockAfter(directory, entries, k - 1);
      AscendingConcat(FilesIn(directory, entries, k - 1), FilesOf(Join(directory, n.name), n.entry));
    }
  }

  lemma BlockAfter(directory: Text, entries: seq<Named>, k: nat)
    requires k < |entries| && WellNamed(Directory(entries)) && ClashFree(Directory(entries))
    ensures forall x, y ::
      x in FilesIn(directory, entries, k) && y in FilesOf(Join(directory, entries[k].name), entries[k].entry) ==>
        Less(x.path, y.path)
  {
    forall x, y | x in FilesIn(directory, entries, k) && y in FilesOf(Join(directory, entries[k].name), entries[k].entry)
      ensures Less(x.path, y.path)
    {
      EarlierFileLess(directory, entries, k, x, y);
    }
  }

  lemma AscendingConcat(a: seq<Captured>, b: seq<Captured>)
    requires Ascending(a) && Ascending(b) && forall x, y :: x in a && y in b ==> Less(x.path, y.path)
    ensures Ascending(a + b)
  {
  }

  lemma EarlierFileLess(directory: Text, entries: seq<Named>, k: nat, x: Captured, y: Captured)
    requires k < |entries| && WellNamed(Directory(entries)) && ClashFree(Directory(entries))
    requires x in FilesIn(directory, entries, k) && y in FilesOf(Join(directory, entries[k].name), entries[k].entry)
    ensures Less(x.path, y.path)
  {
    var i := Origin(directory, entries, k, x);
    var d, e := entries[i], entries[k];
    SiblingOrder(directory, d, e, x, y);
    BearsFiles(Join(directory, d.name), d.entry);
    BearsFiles(Join(directory, e.name), e.entry);
    assert !Clashes(entries, d, e);
  }

  // ----- With a clash it is not -----

  // The path has a unit up to the separator: it is not all digits, nor __proto__, so an object keeps it where it was set.
  predicate HasEarlyUnit(path: Text) {
    exists i :: 0 <= i < |path| && path[i] <= SLASH
  }

  ghost predicate Disordered(files: seq<Captured>, x: Captured, y: Captured) {
    Precedes(files, x, y) && Less(y.path, x.path) && HasEarlyUnit(x.path) && HasEarlyUnit(y.path)
  }

  lemma {:induction false} ClashDisorders(path: Text, entry: Entry) returns (x: Captured, y: Captured)
    requires WellNamed(entry) && !ClashFree(entry)
    ensures Disordered(FilesOf(path, entry), x, y)
    decreases entry
  {
    var entries := entry.entries;
    if d, e :| Clashes(entries, d, e) {
      var i: nat :| i < |entries| && entries[i] == d;
      var j: nat :| j < |entries| && entries[j] == e;
      x, y := SiblingsDisorder(path, entries, i, j);
    } else {
      var n :| n in entries && !ClashFree(n.entry);
      var i: nat :| i < |entries| && entries[i] == n;
      x, y := ClashDisorders(Join(path, n.name), n.entry);
      LaterBlock(path, entries, i, x, y);
    }
  }

  // What holds of the order of files up to a block holds in the whole directory.
  lemma LaterBlock(path: Text, entries: seq<Named>, j: nat, x: Captured, y: Captured)
    requires j < |entries|
    requires
      var before, own := FilesIn(path, entries, j), FilesOf(Join(path, entries[j].name), entries[j].entry);
      Precedes(own, x, y) || (x in before && y in own)
    ensures Precedes(FilesIn(path, entries, |entries|), x, y)
  {
    NextBlock(path, entries, j, x, y);
    FilesGrow(path, entries, j + 1, |entries|);
    PrecedesGrows(FilesIn(path, entries, j + 1), FilesIn(path, entries, |entries|), x, y);
  }

  lemma NextBlock(path: Text, entries: seq<Named>, j: nat, x: Captured, y: Captured)
    requires j < |entries|
    requires
      var before, own := FilesIn(path, entries, j), FilesOf(Join(path, entries[j].name), entries[j].entry);
      Precedes(own, x, y) || (x in before && y in own)
    ensures Precedes(FilesIn(path, entries, j + 1), x, y)
  {
    PrecedesAppended(FilesIn(path, entries, j), FilesOf(Join(path, entries[j].name), entries[j].entry), x, y);
  }

  lemma PrecedesAppended(a: seq<Captured>, b: seq<Captured>, x: Captured, y: Captured)
    requires Precedes(b, x, y) || (x in a && y in b)
    ensures Precedes(a + b, x, y)
  {
    if Precedes(b, x, y) {
      var i, j :| 0 <= i < j < |b| && b[i] == x && b[j] == y;
      assert (a + b)[|a| + i] == x && (a + b)[|a| + j] == y;
    } else {
      var i :| 0 <= i < |a| && a[i] == x;
      var j :| 0 <= j < |b| && b[j] == y;
      assert (a + b)[i] == x && (a + b)[|a| + j] == y;
    }
  }

  lemma ClashIndices(entries: seq<Named>, i: nat, j: nat)
    requires WellNamed(Directory(entries)) && i < |entries| && j < |entries| && Shadows(entries[i].name, entries[j].name)
    ensures i < j
  {
    ShadowedLess(entries[i].name, entries[j].name);
    LessIrreflexive(entries[i].name);
    LessAsymmetric(entries[i].name, entries[j].name);
  }

  lemma {:induction false} BlockIncluded(path: Text, entries: seq<Named>, i: nat, k: nat, c: Captured)
    requires i < k <= |entries| && c in FilesOf(Join(path, entries[i].name), entries[i].entry)
    ensures c in FilesIn(path, entries, k)
    decreases k
  {
    if i < k - 1 {
      BlockIncluded(path, entries, i, k - 1, c);
    }
  }

  // Of two blocks of a directory's files, the files of the first come first.
  lemma BlocksInOrder(path: Text, entries: seq<Named>, i: nat, j: nat, x: Captured, y: Captured)
    requires i < j < |entries|
    requires x in FilesOf(Join(path, entries[i].name), entries[i].entry)
    requires y in FilesOf(Join(path, entries[j].name), entries[j].entry)
    ensures Precedes(FilesIn(path, entries, |entries|), x, y)
  {
    BlockIncluded(path, entries, i, j, x);
    LaterBlock(path, entries, j, x, y);
  }

  lemma PrecedesGrows(a: seq<Captured>, b: seq<Captured>, x: Captured, y: Captured)
    requires a <= b && Precedes(a, x, y)
    ensures Precedes(b, x, y)
  {
    var i, j :| 0 <= i < j < |a| && a[i] == x && a[j] == y;
    assert b[i] == x && b[j] == y;
  }

  lemma SiblingsDisorder(path: Text, entries: seq<Named>, i: nat, j: nat) returns (x: Captured, y: Captured)
    requires WellNamed(Directory(entries)) && i < |entries| && j < |entries| && Clashes(entries, entries[i], entries[j])
    ensures Disordered(FilesIn(path, entries, |entries|), x, y)
  {
    var d, e := entries[i], entries[j];
    ClashIndices(entries, i, j);
    BearsFiles(Join(path, d.name), d.entry);
    BearsFiles(Join(path, e.name), e.entry);
    x := FilesOf(Join(path, d.name), d.entry)[0];
    y := FilesOf(Join(path, e.name), e.entry)[0];
    SiblingOrder(path, d, e, x, y);
    EarlyUnits(path, d, e, x, y);
    BlocksInOrder(path, entries, i, j, x, y);
  }

  lemma ShadowedLess(p: Text, q: Text)
    requires Shadows(p, q)
    ensures Less(p, q)
  {
    assert q[..|p|] == p;
    LessFromWitness(p, q, |p|);
  }

  lemma EarlyUnits(path: Text, d: Named, e: Named, x: Captured, y: Captured)
    requires d.name != [] && e.name != [] && d.entry.Directory? && Shadows(d.name, e.name)
    requires x in FilesOf(Join(path, d.name), d.entry) && y in FilesOf(Join(path, e.name), e.entry)
    ensures HasEarlyUnit(x.path) && HasEarlyUnit(y.path)
  {
    BelowDirectory(Join(path, d.name), d.entry, x);
    BelowExtension(path, d.name, e, y);
  }

  lemma BelowDirectory(path: Text, entry: Entry, c: Captured)
    requires path != [] && entry.Directory? && c in FilesOf(path, entry)
    ensures HasEarlyUnit(c.path)
  {
    var rest := PathContinues(path, entry, c);
    assert c.path[|path|] == SLASH;
  }

  lemma BelowExtension(path: Text, name: Text, e: Named, c: Captured)
    requires e.name != [] && Shadows(name, e.name) && c in FilesOf(Join(path, e.name), e.entry)
    ensures HasEarlyUnit(c.path)
  {
    var rest := PathContinues(Join(path, e.name), e.entry, c);
    assert Join(path, e.name) == Lead(path) + e.name;
    EarlyAt(Lead(path), e.name, rest, |name|);
  }

  lemma EarlyAt(lead: Text, name: Text, rest: Text, i: nat)
    requires i < |name| && name[i] <= SLASH
    ensures HasEarlyUnit(lead + name + rest)
  {
    assert (lead + name + rest)[|lead| + i] == name[i];
  }

  // The walk lists joined paths in code-unit order exactly for the trees without a clash.
  lemma WalkInPathOrder(path: Text, entry: Entry)
    requires WellNamed(entry)
    ensures Ascending(FilesOf(path, entry)) <==> ClashFree(entry)
  {
    if ClashFree(entry) {
      ClashFreeAscends(path, entry);
    } else {
      var x, y := ClashDisorders(path, entry);
      var files := FilesOf(path, entry);
      var i, j :| 0 <= i < j < |files| && files[i] == x && files[j] == y;
      LessAsymmetric(y.path, x.path);
    }
  }
}
