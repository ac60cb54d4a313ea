/**
 Comparing two workspace snapshots (internal/fixture-kit/src/workspace-snapshot.ts, compareWorkspaceSnapshots).

 Snapshots are ordinary objects, so a file that one of them lacks is looked up among the members of Object.prototype.
 */
module SnapshotCompare {
  import opened Wrappers
  import opened Texts
  import opened Sequences
  import opened Sorting
  import opened PlainObjects

  type Snapshot = map<Text, Text>

  // What `snapshot[file] ?? null` gives: the digest of a file, an inherited member, or null.
  datatype Found = Digest(text: Text) | Inherited(name: Text) | Nothing

  datatype Change = Change(file: Text, before: Found, after: Found)

  function Lookup(snapshot: Snapshot, file: Text): Found {
    if file in snapshot then Digest(snapshot[file]) else if file in INHERITED_NAMES then Inherited(file) else Nothing
  }

  // The keys of an object, in whatever order it lists them.
  ghost predicate Lists(keys: seq<Text>, snapshot: Snapshot) {
    Distinct(keys) && forall k :: k in keys <==> k in snapshot
  }

  function Changes(before: Snapshot, after: Snapshot, files: seq<Text>): seq<Change> {
    if files == [] then []
    else
      var file := files[|files| - 1];
      var b, a := Lookup(before, file), Lookup(after, file);
      Changes(before, after, files[..|files| - 1]) + (if b == a then [] else [Change(file, b, a)])
  }

  function CompareWorkspaceSnapshots(before: Snapshot, after: Snapshot, beforeKeys: seq<Text>, afterKeys: seq<Text>): seq<Change> {
    Changes(before, after, Sort(TextAtMost, Deduplicate(beforeKeys + afterKeys)))
  }

  // Files and what they hold, while a comparison is carried out; an inherited member can get in the place of a digest.
  type Files = map<Text, Found>

  function FilesOf(snapshot: Snapshot): Files {
    map file | file in snapshot :: Digest(snapshot[file])
  }

  // Carrying a comparison out: a change to null removes its file, any other sets it.
  function Apply(changes: seq<Change>, files: Files): Files {
    if changes == [] then files
    else
      var rest, last := Apply(changes[..|changes| - 1], files), changes[|changes| - 1];
      if last.after == Nothing then rest - {last.file} else rest[last.file := last.after]
  }

  function Holding(files: Files, file: Text): Option<Found> {
    if file in files then Some(files[file]) else None
  }

  // What carrying the comparison of two snapshots out leaves of a file.
  function Patched(after: Snapshot, file: Text): Option<Found> {
    if Lookup(after, file) == Nothing then None else Some(Lookup(after, file))
  }

  lemma {:induction false} ChangesExact(before: Snapshot, after: Snapshot, files: seq<Text>, c: Change)
    ensures c in Changes(before, after, files) <==>
      c.file in files && c.before == Lookup(before, c.file) && c.after == Lookup(after, c.file) && c.before != c.after
  {
    if files != [] {
      ChangesExact(before, after, files[..|files| - 1], c);
      assert files == files[..|files| - 1] + [files[|files| - 1]];
    }
  }

  // What carrying out the changes of some files leaves of a file: what was found, if it changed, and what it was, if not.
  function Left(before: Snapshot, after: Snapshot, covered: bool, file: Text): Option<Found> {
    if covered && Lookup(before, file) != Lookup(after, file) then Patched(after, file) else Holding(FilesOf(before), file)
  }

  lemma {:induction false} ApplyChanges(before: Snapshot, after: Snapshot, files: seq<Text>, file: Text)
    ensures Holding(Apply(Changes(before, after, files), FilesOf(before)), file) == Left(before, after, file in files, file)
  {
    if files != [] {
      var rest, last := files[..|files| - 1], files[|files| - 1];
      assert files == rest + [last];
      assert file in files <==> file in rest || file == last;
      ApplyChanges(before, after, rest, file);
      var earlier, change := Changes(before, after, rest), Change(last, Lookup(before, last), Lookup(after, last));
      if change.before == change.after {
        assert Changes(before, after, files) == earlier;
      } else {
        assert Changes(before, after, files) == earlier + [change];
        AppliedLast(earlier, change, FilesOf(before), file);
      }
    }
  }

  lemma AppliedLast(changes: seq<Change>, last: Change, files: Files, file: Text)
    ensures Holding(Apply(changes + [last], files), file) ==
      if file != last.file then Holding(Apply(changes, files), file)
      else if last.after == Nothing then None else Some(last.after)
  {
    assert (changes + [last])[..|changes + [last]| - 1] == changes;
  }

  lemma SortedFiles(before: Snapshot, after: Snapshot, beforeKeys: seq<Text>, afterKeys: seq<Text>)
    requires Lists(beforeKeys, before) && Lists(afterKeys, after)
    ensures
      var files := Sort(TextAtMost, Deduplicate(beforeKeys + afterKeys));
      Distinct(files) && Sorted(TextAtMost, files) && forall f :: f in files <==> f in before || f in after
  {
    var keys := Deduplicate(beforeKeys + afterKeys);
    TextOrderTotal();
    SortSorts(TextAtMost, keys);
    SortPermutes(TextAtMost, keys);
    DistinctPermute(keys, Sort(TextAtMost, keys));
  }

  // No file that was removed has the name of an inherited member.
  ghost predicate RemovalsPlain(before: Snapshot, after: Snapshot) {
    forall file :: file in before && file !in after ==> file !in INHERITED_NAMES
  }

  lemma PatchedFile(before: Snapshot, after: Snapshot, files: seq<Text>, file: Text)
    requires forall f :: f in files <==> f in before || f in after
    ensures Holding(Apply(Changes(before, after, files), FilesOf(before)), file) == Holding(FilesOf(after), file) <==>
      !(file in before && file !in after && file in INHERITED_NAMES)
  {
    ApplyChanges(before, after, files, file);
  }

  // The comparison is an exact patch, turning the first snapshot into the second and nothing else, exactly if no file
  // that was removed has the name of an inherited member. It is empty exactly if the snapshots are equal.
  lemma ComparisonIsPatch(before: Snapshot, after: Snapshot, beforeKeys: seq<Text>, afterKeys: seq<Text>)
    requires Lists(beforeKeys, before) && Lists(afterKeys, after)
    ensures Apply(CompareWorkspaceSnapshots(before, after, beforeKeys, afterKeys), FilesOf(before)) == FilesOf(after) <==>
      RemovalsPlain(before, after)
    ensures CompareWorkspaceSnapshots(before, after, beforeKeys, afterKeys) == [] <==> before == after
  {
    var files := Sort(TextAtMost, Deduplicate(beforeKeys + afterKeys));
    var changes := Changes(before, after, files);
    SortedFiles(before, after, beforeKeys, afterKeys);
    forall file
      ensures Holding(Apply(changes, FilesOf(before)), file) == Holding(FilesOf(after), file) <==>
        !(file in before && file !in after && file in INHERITED_NAMES)
    {
      PatchedFile(before, after, files, file);
    }
    if RemovalsPlain(before, after) {
      SameFiles(Apply(changes, FilesOf(before)), FilesOf(after));
    }
    EmptyExactly(before, after, files);
  }

  lemma EmptyExactly(before: Snapshot, after: Snapshot, files: seq<Text>)
    requires forall f :: f in files <==> f in before || f in after
    ensures Changes(before, after, files) == [] <==> before == after
  {
    var changes := Changes(before, after, files);
    if before == after && changes != [] {
      ChangesExact(before, after, files, changes[0]);
    }
    if changes == [] {
      forall file | file in files ensures Lookup(before, file) == Lookup(after, file) {
        ChangesExact(before, after, files, Change(file, Lookup(before, file), Lookup(after, file)));
      }
      assert before.Keys == after.Keys;
    }
  }

  lemma SameFiles(a: Files, b: Files)
    requires forall file :: Holding(a, file) == Holding(b, file)
    ensures a == b
  {
    forall file ensures file in a <==> file in b {
      assert Holding(a, file) == Holding(b, file);
    }
    forall file | file in a ensures a[file] == b[file] {
      assert Holding(a, file) == Holding(b, file);
    }
  }

  // The digest a snapshot has of a file, if any.
  function DigestOf(snapshot: Snapshot, file: Text): Option<Text> {
    if file in snapshot then Some(snapshot[file]) else None
  }

  // Every difference between the files of two snapshots is reported, once, in path order, whatever order the snapshots list
  // their files in, and nothing else is; a file that one side lacks is reported with what the lookup finds there.
  lemma EveryDifferenceOnce(before: Snapshot, after: Snapshot, beforeKeys: seq<Text>, afterKeys: seq<Text>, change: Change)
    requires Lists(beforeKeys, before) && Lists(afterKeys, after)
    ensures change in CompareWorkspaceSnapshots(before, after, beforeKeys, afterKeys) <==>
      && DigestOf(before, change.file) != DigestOf(after, change.file)
      && change.before == Lookup(before, change.file) && change.after == Lookup(after, change.file)
    ensures FilesAscend(CompareWorkspaceSnapshots(before, after, beforeKeys, afterKeys))
  {
    var files := Sort(TextAtMost, Deduplicate(beforeKeys + afterKeys));
    SortedFiles(before, after, beforeKeys, afterKeys);
    ChangesExact(before, after, files, change);
    ChangesAscend(before, after, files);
  }

  lemma OneKey(file: Text)
    ensures Sort(TextAtMost, Deduplicate([file] + [])) == [file]
  {
    var keys, none: seq<Text> := [file], [];
    assert keys + none == keys && keys[..0] == none && keys[1..] == none;
    assert Deduplicate(none) == none;
    assert Sort(TextAtMost, none) == none;
  }

  // A removed file whose name is that of an inherited member, such as constructor: carrying the comparison out leaves the
  // member in its place.
  lemma RemovedInherited(file: Text, digest: Text)
    requires file in INHERITED_NAMES
    ensures
      var before: Snapshot, after: Snapshot := map[file := digest], map[];
      var changes := CompareWorkspaceSnapshots(before, after, [file], []);
      && changes == [Change(file, Digest(digest), Inherited(file))]
      && Apply(changes, FilesOf(before)) == map[file := Inherited(file)]
  {
    OneKey(file);
    var before: Snapshot, after: Snapshot := map[file := digest], map[];
    var none: seq<Text> := [];
    var change := Change(file, Digest(digest), Inherited(file));
    assert [file][..0] == none;
    assert Changes(before, after, [file]) == Changes(before, after, none) + [change] == [change];
    AppliedLast([], change, FilesOf(before), file);
    assert [] + [change] == [change];
  }

  ghost predicate FilesAscend(changes: seq<Change>) {
    forall i, j :: 0 <= i < j < |changes| ==> Less(changes[i].file, changes[j].file)
  }

  lemma {:induction false} ChangesAscend(before: Snapshot, after: Snapshot, files: seq<Text>)
    requires Distinct(files) && Sorted(TextAtMost, files)
    ensures FilesAscend(Changes(before, after, files))
  {
    if files != [] {
      var rest, last := files[..|files| - 1], files[|files| - 1];
      forall i, j | 0 <= i < j < |rest| ensures TextAtMost(rest[i], rest[j]) {
        assert TextAtMost(files[i], files[j]);
      }
      ChangesAscend(before, after, rest);
      var earlier := Changes(before, after, rest);
      forall k | 0 <= k < |earlier| ensures Less(earlier[k].file, last) {
        ChangesExact(before, after, rest, earlier[k]);
        var i :| 0 <= i < |rest| && rest[i] == earlier[k].file;
        assert files[i] != last && TextAtMost(files[i], files[|files| - 1]);
        LessTotal(earlier[k].file, last);
      }
      if Lookup(before, last) == Lookup(after, last) {
        assert Changes(before, after, files) == earlier;
      }
    }
  }
}
