/**
 The budgeted walk that captures a workspace snapshot (internal/fixture-kit/src/workspace-snapshot.ts, walk).
 */
module SnapshotWalk {
  import opened Wrappers
  import opened Texts
  import opened Sequences
  import opened Sorting
  import opened ArtifactPaths
  import opened PlainObjects

  datatype Named = Named(name: Text, entry: Entry)

  // What a directory entry turns out to be. A file is read whole: its digest covers exactly its size in bytes.
  datatype Entry = File(size: nat, digest: Text) | Directory(entries: seq<Named>) | SymbolicLink | SpecialFile

  datatype Limits = Limits(maxFiles: nat, maxFileBytes: nat, maxTotalBytes: nat, maxDepth: nat)

  datatype Captured = Captured(path: Text, size: nat, digest: Text)

  datatype WalkError = TooDeep | IsLink | IsSpecial | TooManyFiles | FileTooLarge | TooManyBytes

  function Join(directory: Text, name: Text): Text {
    if |directory| == 0 then name else directory + [SLASH] + name
  }

  // ----- The order of a directory -----

  predicate NameAtMost(a: Named, b: Named) {
    TextAtMost(a.name, b.name)
  }

  // The tree with every directory listed as it is walked: sorted by name.
  function Arranged(entry: Entry): Entry
    decreases entry, 0
  {
    if entry.Directory? then Directory(Sort(NameAtMost, ArrangedEntries(entry.entries, |entry.entries|))) else entry
  }

  function ArrangedEntries(entries: seq<Named>, k: nat): seq<Named>
    requires k <= |entries|
    decreases entries, k
  {
    if k == 0 then []
    else
      var n := entries[k - 1];
      ArrangedEntries(entries, k - 1) + [Named(n.name, Arranged(n.entry))]
  }

  // ----- What is captured: the files of a tree, depth first -----

  function FilesOf(path: Text, entry: Entry): seq<Captured>
    decreases entry, 0
  {
    match entry
    case File(size, digest) => [Captured(path, size, digest)]
    case Directory(entries) => FilesIn(path, entries, |entries|)
    case _ => []
  }

  function FilesIn(directory: Text, entries: seq<Named>, k: nat): seq<Captured>
    requires k <= |entries|
    decreases entries, k
  {
    if k == 0 then []
    else
      var n := entries[k - 1];
      FilesIn(directory, entries, k - 1) + FilesOf(Join(directory, n.name), n.entry)
  }

  // Setting __proto__ of an ordinary object to a text does nothing; every other assignment of a digest is kept.
  predicate IsKept(c: Captured) {
    c.path != PROTO
  }

  function Kept(files: seq<Captured>): seq<Captured> {
    Filter(IsKept, files)
  }

  // ----- When the walk succeeds -----

  // There are only files and directories, and no directory lies deeper than the limit.
  predicate Walkable(entry: Entry, depth: nat, maxDepth: nat)
    decreases entry, 0
  {
    match entry
    case File(_, _) => true
    case Directory(entries) => depth <= maxDepth && WalkableIn(entries, |entries|, depth, maxDepth)
    case _ => false
  }

  predicate WalkableIn(entries: seq<Named>, k: nat, depth: nat, maxDepth: nat)
    requires k <= |entries|
    decreases entries, k
  {
    k == 0 ||
    (WalkableIn(entries, k - 1, depth, maxDepth) && (var n := entries[k - 1]; Walkable(n.entry, depth + 1, maxDepth)))
  }

  function TotalSize(files: seq<Captured>): nat {
    if files == [] then 0 else TotalSize(files[..|files| - 1]) + files[|files| - 1].size
  }

  predicate AllSmall(files: seq<Captured>, limit: nat) {
    files == [] || (AllSmall(files[..|files| - 1], limit) && files[|files| - 1].size <= limit)
  }

  // The files fit into what is left of the budget.
  predicate Fits(limits: Limits, files: nat, bytes: nat, captured: seq<Captured>) {
    && files + |captured| <= limits.maxFiles && bytes + TotalSize(captured) <= limits.maxTotalBytes
    && AllSmall(captured, limits.maxFileBytes)
  }

  lemma {:induction false} TotalSizeConcat(a: seq<Captured>, b: seq<Captured>)
    ensures TotalSize(a + b) == TotalSize(a) + TotalSize(b)
  {
    if b == [] {
      assert a + b == a;
    } else {
      assert (a + b)[..|a + b| - 1] == a + b[..|b| - 1];
      TotalSizeConcat(a, b[..|b| - 1]);
    }
  }

  lemma {:induction false} AllSmallConcat(a: seq<Captured>, b: seq<Captured>, limit: nat)
    ensures AllSmall(a + b, limit) <==> AllSmall(a, limit) && AllSmall(b, limit)
  {
    if b == [] {
      assert a + b == a;
    } else {
      assert (a + b)[..|a + b| - 1] == a + b[..|b| - 1];
      AllSmallConcat(a, b[..|b| - 1], limit);
    }
  }

  // A part may be spent before the rest.
  lemma {:induction false} FitsConcat(limits: Limits, files: nat, bytes: nat, a: seq<Captured>, b: seq<Captured>)
    ensures Fits(limits, files, bytes, a + b) <==>
      Fits(limits, files, bytes, a) && Fits(limits, files + |a|, bytes + TotalSize(a), b)
  {
    TotalSizeConcat(a, b);
    AllSmallConcat(a, b, limits.maxFileBytes);
  }

  // The walk may go on from this budget through an entry.
  predicate Admits(limits: Limits, files: nat, bytes: nat, path: Text, entry: Entry, depth: nat) {
    Walkable(entry, depth, limits.maxDepth) && Fits(limits, files, bytes, FilesOf(path, entry))
  }

  predicate AdmitsFirst(limits: Limits, files: nat, bytes: nat, directory: Text, entries: seq<Named>, k: nat, depth: nat)
    requires k <= |entries|
  {
    WalkableIn(entries, k, depth, limits.maxDepth) && Fits(limits, files, bytes, FilesIn(directory, entries, k))
  }

  // Having captured the first k entries, the walk has spent what they take; the next has to fit the rest.
  lemma AdmitsStep(limits: Limits, files: nat, bytes: nat, directory: Text, entries: seq<Named>, k: nat, depth: nat,
                   path: Text, files1: nat, bytes1: nat)
    requires k < |entries| && path == Join(directory, entries[k].name)
    requires files1 == files + |FilesIn(directory, entries, k)| && bytes1 == bytes + TotalSize(FilesIn(directory, entries, k))
    ensures AdmitsFirst(limits, files, bytes, directory, entries, k + 1, depth) <==>
      && AdmitsFirst(limits, files, bytes, directory, entries, k, depth)
      && Admits(limits, files1, bytes1, path, entries[k].entry, depth + 1)
  {
    FitsConcat(limits, files, bytes, FilesIn(directory, entries, k), FilesOf(path, entries[k].entry));
  }

  lemma {:induction false} AdmitsPart(limits: Limits, files: nat, bytes: nat, directory: Text, entries: seq<Named>, j: nat, k: nat, depth: nat)
    requires j <= k <= |entries| && AdmitsFirst(limits, files, bytes, directory, entries, k, depth)
    ensures AdmitsFirst(limits, files, bytes, directory, entries, j, depth)
    decreases k
  {
    if j < k {
      AdmitsStep(limits, files, bytes, directory, entries, k - 1, depth,
                 Join(directory, entries[k - 1].name), files + |FilesIn(directory, entries, k - 1)|,
                 bytes + TotalSize(FilesIn(directory, entries, k - 1)));
      AdmitsPart(limits, files, bytes, directory, entries, j, k - 1, depth);
    }
  }

  // The counts and the snapshot of a walk: the object's entries in the order in which they were set.
  datatype Taken = Taken(files: nat, bytes: nat, snapshot: seq<Captured>)

  predicate Took(from: Taken, to: Taken, captured: seq<Captured>) {
    && to.snapshot == from.snapshot + Kept(captured)
    && to.files == from.files + |captured| && to.bytes == from.bytes + TotalSize(captured)
  }

  lemma TookBoth(a: Taken, b: Taken, c: Taken, first: seq<Captured>, second: seq<Captured>)
    requires Took(a, b, first) && Took(b, c, second)
    ensures Took(a, c, first + second)
  {
    TotalSizeConcat(first, second);
    FilterConcat(IsKept, first, second);
    ConcatAssociative(a.snapshot, Kept(first), Kept(second));
  }

  // An entry that may be walked takes the walk of its directory one step on.
  lemma AdmittedEntry(limits: Limits, start: Taken, here: Taken, directory: Text, entries: seq<Named>, k: nat, depth: nat)
    requires k < |entries| && Took(start, here, FilesIn(directory, entries, k))
    requires AdmitsFirst(limits, start.files, start.bytes, directory, entries, k, depth)
    requires Admits(limits, here.files, here.bytes, Join(directory, entries[k].name), entries[k].entry, depth + 1)
    ensures AdmitsFirst(limits, start.files, start.bytes, directory, entries, k + 1, depth)
  {
    AdmitsStep(limits, start.files, start.bytes, directory, entries, k, depth,
               Join(directory, entries[k].name), here.files, here.bytes);
  }

  lemma RefusedNext(limits: Limits, start: Taken, here: Taken, directory: Text, entries: seq<Named>, k: nat, depth: nat)
    requires k < |entries| && Took(start, here, FilesIn(directory, entries, k))
    requires !Admits(limits, here.files, here.bytes, Join(directory, entries[k].name), entries[k].entry, depth + 1)
    ensures !AdmitsFirst(limits, start.files, start.bytes, directory, entries, k + 1, depth)
  {
    AdmitsStep(limits, start.files, start.bytes, directory, entries, k, depth,
               Join(directory, entries[k].name), here.files, here.bytes);
  }

  // An entry that may not be walked stops the walk of its directory.
  lemma RefusedEntry(limits: Limits, start: Taken, here: Taken, directory: Text, entries: seq<Named>, k: nat, depth: nat)
    requires k < |entries| && Took(start, here, FilesIn(directory, entries, k))
    requires !Admits(limits, here.files, here.bytes, Join(directory, entries[k].name), entries[k].entry, depth + 1)
    ensures !AdmitsFirst(limits, start.files, start.bytes, directory, entries, |entries|, depth)
  {
    RefusedNext(limits, start, here, directory, entries, k, depth);
    if AdmitsFirst(limits, start.files, start.bytes, directory, entries, |entries|, depth) {
      AdmitsPart(limits, start.files, start.bytes, directory, entries, k + 1, |entries|, depth);
    }
  }

  lemma OneFile(captured: Captured, limit: nat)
    ensures TotalSize([captured]) == captured.size
    ensures AllSmall([captured], limit) <==> captured.size <= limit
  {
    assert [captured][..0] == [];
  }

  lemma SetOne(snapshot: seq<Captured>, captured: Captured)
    ensures snapshot + Kept([captured]) == if captured.path == PROTO then snapshot else snapshot + [captured]
  {
    FilterAppend(IsKept, [], captured);
    assert [] + [captured] == [captured];
  }

  // ----- What stops a walk -----

  // Following these names from an entry comes to this one.
  ghost predicate Reached(entry: Entry, names: seq<Text>, found: Entry)
    decreases |names|
  {
    if names == [] then entry == found
    else entry.Directory? && exists n :: n in entry.entries && n.name == names[0] && Reached(n.entry, names[1..], found)
  }

  ghost predicate AcceptableAt(found: Entry, depth: nat, maxDepth: nat) {
    found.File? || (found.Directory? && depth <= maxDepth)
  }

  lemma {:induction false} WalkableMeans(entry: Entry, depth: nat, maxDepth: nat, names: seq<Text>, found: Entry)
    requires Walkable(entry, depth, maxDepth) && Reached(entry, names, found)
    ensures AcceptableAt(found, depth + |names|, maxDepth)
    decreases |names|
  {
    if names != [] {
      var n :| n in entry.entries && n.name == names[0] && Reached(n.entry, names[1..], found);
      var i: nat :| i < |entry.entries| && entry.entries[i] == n;
      WalkableInExact(entry.entries, |entry.entries|, depth, maxDepth);
      WalkableMeans(n.entry, depth + 1, maxDepth, names[1..], found);
    }
  }

  ghost predicate AllAcceptable(entry: Entry, depth: nat, maxDepth: nat) {
    forall names, found :: Reached(entry, names, found) ==> AcceptableAt(found, depth + |names|, maxDepth)
  }

  lemma BelowAcceptable(entry: Entry, n: Named, depth: nat, maxDepth: nat)
    requires entry.Directory? && n in entry.entries && AllAcceptable(entry, depth, maxDepth)
    ensures AllAcceptable(n.entry, depth + 1, maxDepth)
  {
    forall names, found | Reached(n.entry, names, found) ensures AcceptableAt(found, depth + 1 + |names|, maxDepth) {
      ReachedBelow(entry, n, names, found);
      assert |[n.name] + names| == |names| + 1;
    }
  }

  lemma {:induction false} AcceptableWalks(entry: Entry, depth: nat, maxDepth: nat)
    requires AllAcceptable(entry, depth, maxDepth)
    ensures Walkable(entry, depth, maxDepth)
    decreases entry
  {
    assert Reached(entry, [], entry);
    if entry.Directory? {
      forall i: nat | i < |entry.entries| ensures Walkable(entry.entries[i].entry, depth + 1, maxDepth) {
        BelowAcceptable(entry, entry.entries[i], depth, maxDepth);
        AcceptableWalks(entry.entries[i].entry, depth + 1, maxDepth);
      }
      WalkableInExact(entry.entries, |entry.entries|, depth, maxDepth);
    }
  }

  // A tree may be walked exactly if there are only files and directories in it, and no directory lies deeper than the limit.
  lemma WalkableExact(entry: Entry, depth: nat, maxDepth: nat)
    ensures Walkable(entry, depth, maxDepth) <==> AllAcceptable(entry, depth, maxDepth)
  {
    if Walkable(entry, depth, maxDepth) {
      forall names, found | Reached(entry, names, found) ensures AcceptableAt(found, depth + |names|, maxDepth) {
        WalkableMeans(entry, depth, maxDepth, names, found);
      }
    } else if AllAcceptable(entry, depth, maxDepth) {
      AcceptableWalks(entry, depth, maxDepth);
    }
  }

  // Files fit exactly if their number and their total size do, and no file is too large.
  lemma {:induction false} SmallExact(files: seq<Captured>, limit: nat)
    ensures AllSmall(files, limit) <==> forall c :: c in files ==> c.size <= limit
  {
    if files != [] {
      SmallExact(files[..|files| - 1], limit);
      assert files == files[..|files| - 1] + [files[|files| - 1]];
    }
  }

  lemma {:induction false} WalkableInExact(entries: seq<Named>, k: nat, depth: nat, maxDepth: nat)
    requires k <= |entries|
    ensures WalkableIn(entries, k, depth, maxDepth) <==> forall i: nat :: i < k ==> Walkable(entries[i].entry, depth + 1, maxDepth)
    decreases k
  {
    if k > 0 {
      WalkableInExact(entries, k - 1, depth, maxDepth);
    }
  }

  lemma ReachedBelow(entry: Entry, n: Named, names: seq<Text>, found: Entry)
    requires entry.Directory? && n in entry.entries && Reached(n.entry, names, found)
    ensures Reached(entry, [n.name] + names, found)
  {
    assert ([n.name] + names)[1..] == names;
  }

  // An entry is in the way of a walk.
  ghost predicate InTheWay(limits: Limits, found: Entry, depth: nat, error: WalkError) {
    match error
    case TooDeep => found.Directory? && depth > limits.maxDepth
    case IsLink => found.SymbolicLink?
    case IsSpecial => found.SpecialFile?
    case FileTooLarge => found.File? && found.size > limits.maxFileBytes
    case _ => false
  }

  // The tree gives this reason to stop.
  ghost predicate Obstructs(limits: Limits, files: nat, bytes: nat, path: Text, entry: Entry, depth: nat, error: WalkError) {
    match error
    case TooManyFiles => files + |FilesOf(path, entry)| > limits.maxFiles
    case TooManyBytes => bytes + TotalSize(FilesOf(path, entry)) > limits.maxTotalBytes
    case _ => exists names, found :: Reached(entry, names, found) && InTheWay(limits, found, depth + |names|, error)
  }

  lemma FilesGrow(directory: Text, entries: seq<Named>, k: nat)
    requires k < |entries|
    ensures
      var own := FilesOf(Join(directory, entries[k].name), entries[k].entry);
      && |FilesIn(directory, entries, |entries|)| >= |FilesIn(directory, entries, k)| + |own|
      && TotalSize(FilesIn(directory, entries, |entries|)) >= TotalSize(FilesIn(directory, entries, k)) + TotalSize(own)
  {
    var before, own := FilesIn(directory, entries, k), FilesOf(Join(directory, entries[k].name), entries[k].entry);
    var rest := FilesAfter(directory, entries, k + 1, |entries|);
    TotalSizeConcat(before, own);
    TotalSizeConcat(before + own, rest);
    assert FilesIn(directory, entries, k + 1) == before + own;
  }

  lemma {:induction false} FilesAfter(directory: Text, entries: seq<Named>, j: nat, k: nat) returns (rest: seq<Captured>)
    requires j <= k <= |entries|
    ensures FilesIn(directory, entries, k) == FilesIn(directory, entries, j) + rest
    decreases k
  {
    rest := [];
    if j < k {
      rest := FilesAfter(directory, entries, j, k - 1);
      rest := rest + FilesOf(Join(directory, entries[k - 1].name), entries[k - 1].entry);
    }
  }

  // What stops the walk of an entry stops that of its directory.
  lemma ObstructsAbove(limits: Limits, start: Taken, here: Taken, directory: Text, entries: seq<Named>, k: nat, depth: nat, error: WalkError)
    requires k < |entries| && Took(start, here, FilesIn(directory, entries, k))
    requires Obstructs(limits, here.files, here.bytes, Join(directory, entries[k].name), entries[k].entry, depth + 1, error)
    ensures Obstructs(limits, start.files, start.bytes, directory, Directory(entries), depth, error)
  {
    if error == TooManyFiles || error == TooManyBytes {
      FilesGrow(directory, entries, k);
    } else {
      StopsAbove(limits, Directory(entries), entries[k], depth, error);
    }
  }

  lemma StopsAbove(limits: Limits, entry: Entry, n: Named, depth: nat, error: WalkError)
    requires entry.Directory? && n in entry.entries
    requires exists names, found :: Reached(n.entry, names, found) && InTheWay(limits, found, depth + 1 + |names|, error)
    ensures exists names, found :: Reached(entry, names, found) && InTheWay(limits, found, depth + |names|, error)
  {
    var names, found :| Reached(n.entry, names, found) && InTheWay(limits, found, depth + 1 + |names|, error);
    ReachedBelow(entry, n, names, found);
    assert |[n.name] + names| == |names| + 1;
  }

  class Walker {
    const limits: Limits
    var files: nat
    var bytes: nat
    var snapshot: seq<Captured>

    constructor (limits: Limits)
      ensures this.limits == limits && files == 0 && bytes == 0 && snapshot == []
    {
      this.limits := limits;
      files, bytes, snapshot := 0, 0, [];
    }

    function Current(): Taken
      reads this
    {
      Taken(files, bytes, snapshot)
    }

    // The walk of a directory succeeds exactly if every entry below it is a file or a directory, no directory is too
    // deep and the files fit; then it has set an entry for each that is kept, in order, and spent the budget they all take.
    method Walk(directory: Text, entries: seq<Named>, depth: nat) returns (r: Result<(), WalkError>)
      requires files <= limits.maxFiles && bytes <= limits.maxTotalBytes
      modifies this
      ensures r.Success? <==> Admits(limits, old(files), old(bytes), directory, Directory(entries), depth)
      ensures r.Success? ==> Took(old(Current()), Current(), FilesOf(directory, Directory(entries)))
      ensures r.Failure? ==> Obstructs(limits, old(files), old(bytes), directory, Directory(entries), depth, r.error)
      decreases entries
    {
      assert Reached(Directory(entries), [], Directory(entries));
      if depth > limits.maxDepth {
        return Failure(TooDeep);
      }
      ghost var start := Current();
      for k := 0 to |entries|
        invariant AdmitsFirst(limits, start.files, start.bytes, directory, entries, k, depth)
        invariant Took(start, Current(), FilesIn(directory, entries, k))
      {
        var path, entry := Join(directory, entries[k].name), entries[k].entry;
        ghost var before, here := FilesIn(directory, entries, k), Current();
        var visited := WalkEntry(path, entry, depth);
        if visited.Failure? {
          RefusedEntry(limits, start, here, directory, entries, k, depth);
          ObstructsAbove(limits, start, here, directory, entries, k, depth, visited.error);
          return Failure(visited.error);
        }
        AdmittedEntry(limits, start, here, directory, entries, k, depth);
        TookBoth(start, here, Current(), before, FilesOf(path, entry));
      }
      r := Success(());
    }

    method WalkEntry(path: Text, entry: Entry, depth: nat) returns (r: Result<(), WalkError>)
      requires files <= limits.maxFiles && bytes <= limits.maxTotalBytes
      modifies this
      ensures r.Success? <==> Admits(limits, old(files), old(bytes), path, entry, depth + 1)
      ensures r.Success? ==> Took(old(Current()), Current(), FilesOf(path, entry))
      ensures r.Failure? ==> Obstructs(limits, old(files), old(bytes), path, entry, depth + 1, r.error)
      decreases entry, 0
    {
      assert Reached(entry, [], entry);
      match entry
      case SymbolicLink => r := Failure(IsLink);
      case SpecialFile => r := Failure(IsSpecial);
      case Directory(entries) =>
        r := Walk(path, entries, depth + 1);
      case File(size, digest) =>
        assert FilesOf(path, entry) == [Captured(path, size, digest)];
        OneFile(Captured(path, size, digest), limits.maxFileBytes);
        files := files + 1;
        if files > limits.maxFiles {
          return Failure(TooManyFiles);
        }
        if size > limits.maxFileBytes {
          return Failure(FileTooLarge);
        }
        if bytes + size > limits.maxTotalBytes {
          return Failure(TooManyBytes);
        }
        bytes := bytes + size;
        SetOne(snapshot, Captured(path, size, digest));
        if path != PROTO {
          snapshot := snapshot + [Captured(path, size, digest)];
        }
        r := Success(());
    }
  }

  // The entries of a workspace's snapshot, or the failure of its walk.
  method CaptureWorkspaceSnapshot(root: seq<Named>, limits: Limits) returns (r: Result<seq<Captured>, WalkError>)
    ensures r.Success? <==> Admits(limits, 0, 0, [], Arranged(Directory(root)), 0)
    ensures r.Success? ==> r.value == Kept(FilesOf([], Arranged(Directory(root))))
    ensures r.Failure? ==> Obstructs(limits, 0, 0, [], Arranged(Directory(root)), 0, r.error)
  {
    var walker := new Walker(limits);
    var walked := walker.Walk([], Arranged(Directory(root)).entries, 0);
    r := if walked.Success? then Success(walker.snapshot) else Failure(walked.error);
  }
}
