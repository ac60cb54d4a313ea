/**
 What a walked snapshot contains: each file of the tree once, under the path its directory names join to
 (internal/fixture-kit/src/workspace-snapshot.ts, walk).
 */
module SnapshotContents {
  import opened Texts
  import opened Sorting
  import opened ArtifactPaths
  import opened PlainObjects
  import opened SnapshotWalk
  import opened SnapshotOrder
  import opened SnapshotDigest

  // Following these names from an entry leads to this file.
  ghost predicate Leads(entry: Entry, names: seq<Text>, size: nat, digest: Text)
    decreases |names|
  {
    if names == [] then entry == File(size, digest)
    else entry.Directory? && exists n :: n in entry.entries && n.name == names[0] && Leads(n.entry, names[1..], size, digest)
  }

  function JoinAll(path: Text, names: seq<Text>): Text
    decreases |names|
  {
    if names == [] then path else JoinAll(Join(path, names[0]), names[1..])
  }

  ghost predicate CapturedAt(path: Text, entry: Entry, names: seq<Text>, c: Captured) {
    Leads(entry, names, c.size, c.digest) && c.path == JoinAll(path, names)
  }

  // The walk captures exactly the files of the tree, each under its joined path, with its size and digest.
  lemma {:induction false} FilesExact(path: Text, entry: Entry, c: Captured)
    ensures c in FilesOf(path, entry) <==> exists names :: CapturedAt(path, entry, names, c)
    decreases entry
  {
    if c in FilesOf(path, entry) {
      CapturedLeads(path, entry, c);
    }
    if names :| CapturedAt(path, entry, names, c) {
      LeadsCaptured(path, entry, names, c);
    }
  }

  lemma {:induction false} CapturedLeads(path: Text, entry: Entry, c: Captured)
    requires c in FilesOf(path, entry)
    ensures exists names :: CapturedAt(path, entry, names, c)
    decreases entry
  {
    if entry.File? {
      assert CapturedAt(path, entry, [], c);
    } else {
      var i := Origin(path, entry.entries, |entry.entries|, c);
      var n := entry.entries[i];
      CapturedLeads(Join(path, n.name), n.entry, c);
      var names :| CapturedAt(Join(path, n.name), n.entry, names, c);
      assert ([n.name] + names)[1..] == names;
      assert n in entry.entries;
      assert CapturedAt(path, entry, [n.name] + names, c);
    }
  }

  lemma {:induction false} LeadsCaptured(path: Text, entry: Entry, names: seq<Text>, c: Captured)
    requires CapturedAt(path, entry, names, c)
    ensures c in FilesOf(path, entry)
    decreases |names|
  {
    if names != [] {
      var n :| n in entry.entries && n.name == names[0] && Leads(n.entry, names[1..], c.size, c.digest);
      LeadsCaptured(Join(path, n.name), n.entry, names[1..], c);
      var i: nat :| i < |entry.entries| && entry.entries[i] == n;
      BlockIncluded(path, entry.entries, i, |entry.entries|, c);
    }
  }

  // No path is captured twice.
  lemma {:induction false} PathsDistinct(path: Text, entry: Entry)
    requires WellNamed(entry)
    ensures DistinctPaths(FilesOf(path, entry))
    decreases entry
  {
    if entry.Directory? {
      forall i | 0 <= i < |entry.entries| ensures BlockApart(path, entry.entries, i) {
        var n := entry.entries[i];
        EntryWellNamed(entry.entries, i);
        PathsDistinct(Join(path, n.name), n.entry);
        BlockDiffers(path, entry.entries, i);
      }
      PathsDistinctIn(path, entry.entries, |entry.entries|);
    }
  }

  ghost predicate DistinctPaths(files: seq<Captured>) {
    forall i, j :: 0 <= i < j < |files| ==> files[i].path != files[j].path
  }

  ghost predicate PathsApart(a: seq<Captured>, b: seq<Captured>) {
    forall x, y :: x in a && y in b ==> x.path != y.path
  }

  // The paths of this entry are distinct, and none is one of an earlier sibling.
  ghost predicate BlockApart(directory: Text, entries: seq<Named>, k: int)
    requires 0 <= k < |entries|
  {
    var own := FilesOf(Join(directory, entries[k].name), entries[k].entry);
    DistinctPaths(own) && PathsApart(FilesIn(directory, entries, k), own)
  }

  lemma {:induction false} PathsDistinctIn(directory: Text, entries: seq<Named>, k: nat)
    requires k <= |entries| && forall i :: 0 <= i < k ==> BlockApart(directory, entries, i)
    ensures DistinctPaths(FilesIn(directory, entries, k))
  {
    if k > 0 {
      var before := FilesIn(directory, entries, k - 1);
      PathsDistinctIn(directory, entries, k - 1);
      assert BlockApart(directory, entries, k - 1);
      DistinctConcat(before, FilesOf(Join(directory, entries[k - 1].name), entries[k - 1].entry));
    }
  }

  lemma EntryWellNamed(entries: seq<Named>, k: nat)
    requires k < |entries| && WellNamed(Directory(entries))
    ensures WellNamed(entries[k].entry)
  {
    assert entries[k] in entries;
  }

  lemma BlockDiffers(directory: Text, entries: seq<Named>, k: nat)
    requires k < |entries| && WellNamed(Directory(entries))
    ensures PathsApart(FilesIn(directory, entries, k), FilesOf(Join(directory, entries[k].name), entries[k].entry))
  {
    forall x, y | x in FilesIn(directory, entries, k) && y in FilesOf(Join(directory, entries[k].name), entries[k].entry)
      ensures x.path != y.path
    {
      SiblingFilesDiffer(directory, entries, k, x, y);
    }
  }

  lemma SiblingFilesDiffer(directory: Text, entries: seq<Named>, k: nat, x: Captured, y: Captured)
    requires k < |entries| && WellNamed(Directory(entries))
    requires x in FilesIn(directory, entries, k) && y in FilesOf(Join(directory, entries[k].name), entries[k].entry)
    ensures x.path != y.path
  {
    var i := Origin(directory, entries, k, x);
    SiblingOrder(directory, entries[i], entries[k], x, y);
    LessIrreflexive(x.path);
  }

  lemma DistinctConcat(a: seq<Captured>, b: seq<Captured>)
    requires DistinctPaths(a) && DistinctPaths(b) && PathsApart(a, b)
    ensures DistinctPaths(a + b)
  {
  }

  // ----- Sorting directories moves nothing -----

  lemma {:induction false} ArrangedIs(entries: seq<Named>, k: nat)
    requires k <= |entries|
    ensures |ArrangedEntries(entries, k)| == k
    ensures forall i :: 0 <= i < k ==> ArrangedEntries(entries, k)[i] == Named(entries[i].name, Arranged(entries[i].entry))
  {
    if k > 0 {
      ArrangedIs(entries, k - 1);
    }
  }

  lemma ArrangedMembers(entries: seq<Named>, i: nat)
    requires i < |entries|
    ensures Named(entries[i].name, Arranged(entries[i].entry)) in Arranged(Directory(entries)).entries
  {
    var arranged := ArrangedEntries(entries, |entries|);
    ArrangedIs(entries, |entries|);
    SortPermutes(NameAtMost, arranged);
    assert arranged[i] in arranged;
  }

  lemma ArrangedOrigin(entries: seq<Named>, n: Named) returns (i: nat)
    requires n in Arranged(Directory(entries)).entries
    ensures i < |entries| && n == Named(entries[i].name, Arranged(entries[i].entry))
  {
    var arranged := ArrangedEntries(entries, |entries|);
    ArrangedIs(entries, |entries|);
    SortPermutes(NameAtMost, arranged);
    i :| 0 <= i < |arranged| && arranged[i] == n;
  }

  lemma {:induction false} ArrangedLeads(entry: Entry, names: seq<Text>, size: nat, digest: Text)
    ensures Leads(Arranged(entry), names, size, digest) <==> Leads(entry, names, size, digest)
    decreases |names|
  {
    if entry.Directory? && names != [] {
      if Leads(Arranged(entry), names, size, digest) {
        var n :| n in Arranged(entry).entries && n.name == names[0] && Leads(n.entry, names[1..], size, digest);
        var i := ArrangedOrigin(entry.entries, n);
        ArrangedLeads(entry.entries[i].entry, names[1..], size, digest);
      }
      if Leads(entry, names, size, digest) {
        var n :| n in entry.entries && n.name == names[0] && Leads(n.entry, names[1..], size, digest);
        var i: nat :| i < |entry.entries| && entry.entries[i] == n;
        ArrangedLeads(n.entry, names[1..], size, digest);
        ArrangedMembers(entry.entries, i);
      }
    }
  }

  // ----- The snapshot of a workspace -----

  ghost predicate InWorkspace(root: seq<Named>, c: Captured) {
    exists names :: CapturedAt([], Directory(root), names, c)
  }

  // No file of the root directory is named __proto__.
  ghost predicate NoProtoFile(root: seq<Named>) {
    forall n :: n in root && n.name == PROTO ==> !n.entry.File?
  }

  lemma WalkedExact(root: seq<Named>, c: Captured)
    ensures c in FilesOf([], Arranged(Directory(root))) <==> InWorkspace(root, c)
  {
    var arranged := Arranged(Directory(root));
    FilesExact([], arranged, c);
    forall names
      ensures CapturedAt([], arranged, names, c) <==> CapturedAt([], Directory(root), names, c)
    {
      ArrangedLeads(Directory(root), names, c.size, c.digest);
    }
  }

  lemma {:induction false} JoinedLonger(path: Text, names: seq<Text>)
    requires path != []
    ensures path <= JoinAll(path, names) && (names != [] ==> SLASH in JoinAll(path, names))
    decreases |names|
  {
    if names != [] {
      var next := Join(path, names[0]);
      assert next[|path|] == SLASH;
      JoinedLonger(next, names[1..]);
      assert JoinAll(path, names)[|path|] == SLASH;
    }
  }

  // Only a file of the root directory can be captured as __proto__: deeper paths have a separator.
  lemma ProtoAtRoot(root: seq<Named>, names: seq<Text>, c: Captured)
    requires ProperNames(Directory(root)) && CapturedAt([], Directory(root), names, c) && c.path == PROTO
    ensures !NoProtoFile(root)
  {
    assert names != [];
    var n :| n in root && n.name == names[0] && Leads(n.entry, names[1..], c.size, c.digest);
    assert JoinAll([], names) == JoinAll(names[0], names[1..]);
    ProtoJoined(names[0], names[1..]);
  }

  lemma ProtoJoined(name: Text, names: seq<Text>)
    requires name != [] && JoinAll(name, names) == PROTO
    ensures names == [] && name == PROTO
  {
    JoinedLonger(name, names);
    assert SLASH !in PROTO;
  }

  lemma ProtoCaptured(root: seq<Named>, n: Named)
    requires n in root && n.name == PROTO && n.entry.File?
    ensures InWorkspace(root, Captured(PROTO, n.entry.size, n.entry.digest))
  {
    var names := [PROTO];
    assert names[1..] == [];
    assert JoinAll([], names) == JoinAll(Join([], PROTO), []) == PROTO;
    assert CapturedAt([], Directory(root), names, Captured(PROTO, n.entry.size, n.entry.digest));
  }

  // The snapshot of a workspace has one entry for each file kept, and holds exactly the workspace's files unless the root
  // directory has a file named __proto__.
  lemma SnapshotExact(root: seq<Named>)
    requires ProperNames(Directory(root))
    ensures DistinctPaths(Kept(FilesOf([], Arranged(Directory(root)))))
    ensures (forall c :: c in Kept(FilesOf([], Arranged(Directory(root)))) <==> InWorkspace(root, c)) <==> NoProtoFile(root)
  {
    var arranged := Arranged(Directory(root));
    ArrangedWellNamed(Directory(root));
    PathsDistinct([], arranged);
    KeptDistinct(FilesOf([], arranged));
    forall c ensures c in Kept(FilesOf([], arranged)) <==> InWorkspace(root, c) && c.path != PROTO {
      WalkedExact(root, c);
    }
    if NoProtoFile(root) {
      forall c | InWorkspace(root, c) ensures c.path != PROTO {
        var names :| CapturedAt([], Directory(root), names, c);
        if c.path == PROTO {
          ProtoAtRoot(root, names, c);
        }
      }
    } else {
      var n :| n in root && n.name == PROTO && n.entry.File?;
      ProtoCaptured(root, n);
    }
  }

  // In a workspace whose one file is __proto__, the snapshot holds nothing.
  lemma ProtoFileLost(size: nat, digest: Text)
    ensures ProperNames(Directory([Named(PROTO, File(size, digest))]))
    ensures InWorkspace([Named(PROTO, File(size, digest))], Captured(PROTO, size, digest))
    ensures forall c :: c !in Kept(FilesOf([], Arranged(Directory([Named(PROTO, File(size, digest))]))))
  {
    var root := [Named(PROTO, File(size, digest))];
    ProtoCaptured(root, root[0]);
    var files := FilesOf([], Arranged(Directory(root)));
    forall c | c in files ensures c.path == PROTO {
      WalkedExact(root, c);
      var names :| CapturedAt([], Directory(root), names, c);
      var n :| n in root && n.name == names[0] && Leads(n.entry, names[1..], c.size, c.digest);
      assert n == root[0] && names[1..] == [];
      assert JoinAll([], names) == JoinAll(Join([], names[0]), names[1..]);
    }
  }

  lemma {:induction false} KeptDistinct(files: seq<Captured>)
    requires DistinctPaths(files)
    ensures DistinctPaths(Kept(files))
  {
    if files != [] {
      var rest, last := files[..|files| - 1], files[|files| - 1];
      KeptDistinct(rest);
      forall c | c in Kept(rest) ensures c.path != last.path {
        var i :| 0 <= i < |rest| && rest[i] == c;
        assert files[i].path != files[|files| - 1].path;
      }
    }
  }
}
