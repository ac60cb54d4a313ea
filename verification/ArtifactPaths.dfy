/**
 Path sets of agent-authored artifacts: the scan of neighbours in sorted order
 (internal/agent-runner/src/agent-authored-artifact.ts, validatePathSet).
 */
module ArtifactPaths {
  import opened Wrappers
  import opened Texts
  import opened Sequences
  import opened Sorting

  const SLASH: CodeUnit := 47

  // q lies in the directory p.
  predicate Under(p: Text, q: Text) {
    |p| < |q| && p <= q && q[|p|] == SLASH
  }

  // q extends p with a unit that sorts before the separator, as `a.txt` and `a-b` extend `a`.
  predicate Shadows(p: Text, q: Text) {
    |p| < |q| && p <= q && q[|p|] < SLASH
  }

  datatype PathIssue = Collision | FileAndDirectory

  ghost predicate NeighboursEqual(paths: seq<Text>, n: int) {
    exists i :: 0 < i < n <= |paths| && paths[i - 1] == paths[i]
  }

  ghost predicate NeighboursNest(paths: seq<Text>, n: int) {
    exists i :: 0 < i < n <= |paths| && Under(paths[i - 1], paths[i])
  }

  // Some path is also a directory, and no other path sorts between it and what the directory holds.
  ghost predicate VisibleConflict(paths: seq<Text>) {
    exists p, q :: p in paths && q in paths && Under(p, q) && NothingShadows(paths, p)
  }

  ghost predicate NothingShadows(paths: seq<Text>, p: Text) {
    forall q :: q in paths ==> !Shadows(p, q)
  }

  ghost predicate Conflict(paths: seq<Text>) {
    exists p, q :: p in paths && q in paths && Under(p, q)
  }

  // What sorts between a path and an extension of it extends it too.
  lemma {:induction false} PrefixBetween(p: Text, q: Text, r: Text)
    requires AtMost(p, q) && AtMost(q, r) && p <= r
    ensures p <= q
  {
    if p != [] {
      assert r != [] && q != [] && q[0] == p[0];
      PrefixBetween(p[1..], q[1..], r[1..]);
      assert p == [p[0]] + p[1..] && q == [q[0]] + q[1..];
    }
  }

  lemma ProperExtension(p: Text, q: Text)
    requires p <= q && p != q
    ensures |p| < |q|
  {
    assert q == p + q[|p|..];
  }

  lemma ShadowFirst(p: Text, q: Text, r: Text)
    requires Shadows(p, q) && Under(p, r)
    ensures Less(p, q) && Less(q, r)
  {
    assert q[..|p|] == p == r[..|p|];
    LessFromWitness(q, r, |p|);
    LessFromWitness(p, q, |p|);
  }

  lemma UnderAfter(p: Text, q: Text)
    requires Under(p, q)
    ensures Less(p, q)
  {
    assert q[..|p|] == p;
    LessFromWitness(p, q, |p|);
  }

  lemma AtMostFromSorted(paths: seq<Text>, i: nat, j: nat)
    requires Sorted(TextAtMost, paths) && i <= j < |paths|
    ensures AtMost(paths[i], paths[j])
  {
    if i == j {
      LessIrreflexive(paths[i]);
    } else {
      assert TextAtMost(paths[i], paths[j]);
    }
  }

  // The right neighbour of a path lies in it if anything does, unless something shadows the path.
  lemma NeighbourUnder(paths: seq<Text>, p: nat, q: nat)
    requires Sorted(TextAtMost, paths) && Distinct(paths)
    requires p < |paths| && q < |paths| && Under(paths[p], paths[q])
    ensures p + 1 < |paths|
    ensures Under(paths[p], paths[p + 1]) <==> NothingShadows(paths, paths[p])
  {
    UnderAfter(paths[p], paths[q]);
    if q <= p {
      AtMostFromSorted(paths, q, p);
    }
    assert p < q;
    var next := paths[p + 1];
    AtMostFromSorted(paths, p, p + 1);
    AtMostFromSorted(paths, p + 1, q);
    PrefixBetween(paths[p], next, paths[q]);
    ProperExtension(paths[p], next);
    if Shadows(paths[p], next) {
      assert next in paths;
    } else if next[|paths[p]|] > SLASH {
      assert paths[q][..|paths[p]|] == next[..|paths[p]|];
      LessFromWitness(paths[q], next, |paths[p]|);
    }
    if Under(paths[p], next) && !NothingShadows(paths, paths[p]) {
      var shadow :| shadow in paths && Shadows(paths[p], shadow);
      ShadowedNeighbour(paths, p, shadow);
    }
  }

  lemma ShadowedNeighbour(paths: seq<Text>, p: nat, shadow: Text)
    requires Sorted(TextAtMost, paths) && p + 1 < |paths|
    requires shadow in paths && Shadows(paths[p], shadow)
    ensures !Under(paths[p], paths[p + 1])
  {
    if Under(paths[p], paths[p + 1]) {
      ShadowFirst(paths[p], shadow, paths[p + 1]);
      var k: nat :| k < |paths| && paths[k] == shadow;
      if k <= p {
        AtMostFromSorted(paths, k, p);
      } else {
        AtMostFromSorted(paths, p + 1, k);
      }
    }
  }

  lemma EqualNeighbours(paths: seq<Text>)
    requires Sorted(TextAtMost, paths)
    ensures NeighboursEqual(paths, |paths|) <==> !Distinct(paths)
  {
    if !Distinct(paths) {
      var i, j :| 0 <= i < j < |paths| && paths[i] == paths[j];
      AtMostFromSorted(paths, i, i + 1);
      AtMostFromSorted(paths, i + 1, j);
      LessTotal(paths[i], paths[i + 1]);
      assert paths[i + 1 - 1] == paths[i + 1];
    }
  }

  lemma NestedNeighbours(paths: seq<Text>)
    requires Sorted(TextAtMost, paths) && Distinct(paths)
    ensures NeighboursNest(paths, |paths|) <==> VisibleConflict(paths)
  {
    if NeighboursNest(paths, |paths|) {
      var i :| 0 < i < |paths| && Under(paths[i - 1], paths[i]);
      NeighbourUnder(paths, i - 1, i);
      assert paths[i - 1] in paths && paths[i] in paths;
    }
    if VisibleConflict(paths) {
      var p, q :| p in paths && q in paths && Under(p, q) && NothingShadows(paths, p);
      var i: nat :| i < |paths| && paths[i] == p;
      var j: nat :| j < |paths| && paths[j] == q;
      NeighbourUnder(paths, i, j);
      assert Under(paths[i + 1 - 1], paths[i + 1]);
    }
  }

  lemma SameElements(paths: seq<Text>, sorted: seq<Text>)
    requires multiset(paths) == multiset(sorted)
    ensures Distinct(paths) <==> Distinct(sorted)
    ensures VisibleConflict(paths) <==> VisibleConflict(sorted)
  {
    DistinctPermute(paths, sorted);
    forall p ensures p in paths <==> p in sorted {
      assert p in multiset(paths) <==> p in multiset(sorted);
    }
    assert forall p :: NothingShadows(paths, p) <==> NothingShadows(sorted, p);
  }

  lemma SortedScan(paths: seq<Text>)
    ensures
      var sorted := Sort(TextAtMost, paths);
      && (NeighboursEqual(sorted, |sorted|) <==> !Distinct(paths))
      && (Distinct(paths) ==> (NeighboursNest(sorted, |sorted|) <==> VisibleConflict(paths)))
  {
    var sorted := Sort(TextAtMost, paths);
    TextsSort(paths);
    SameElements(paths, sorted);
    EqualNeighbours(sorted);
    if Distinct(sorted) {
      NestedNeighbours(sorted);
    }
  }

  lemma TextsSort(paths: seq<Text>)
    ensures Sorted(TextAtMost, Sort(TextAtMost, paths)) && multiset(Sort(TextAtMost, paths)) == multiset(paths)
  {
    TextOrderTotal();
    SortSorts(TextAtMost, paths);
    SortPermutes(TextAtMost, paths);
  }

  // Case folding is a parameter. The scan refuses every collision, but of the files that are also directories only
  // those that no other path shadows.
  method ValidatePathSet(fold: Text -> Text, paths: seq<Text>) returns (issue: Option<PathIssue>)
    ensures issue.None? <==> Distinct(Map(fold, paths)) && !VisibleConflict(Map(fold, paths))
    ensures Distinct(Map(fold, paths)) ==> issue != Some(Collision)
  {
    ghost var folded := Map(fold, paths);
    var sorted := Sort(TextAtMost, Map(fold, paths));
    SortedScan(folded);
    issue := None;
    for i := 0 to |sorted|
      invariant !NeighboursEqual(sorted, i) && !NeighboursNest(sorted, i)
    {
      if i > 0 && sorted[i - 1] == sorted[i] {
        return Some(Collision);
      }
      if i > 0 && Under(sorted[i - 1], sorted[i]) {
        return Some(FileAndDirectory);
      }
    }
  }

  // `a`, `a-b` and `a/x`: the file `a` is also a directory, and the scan does not see it.
  lemma HiddenConflict()
    ensures
      var paths: seq<Text> := [[97], [97, 45, 98], [97, 47, 120]];
      Conflict(paths) && Distinct(paths) && !VisibleConflict(paths)
  {
    var paths: seq<Text> := [[97], [97, 45, 98], [97, 47, 120]];
    assert Under(paths[0], paths[2]) && Shadows(paths[0], paths[1]);
    assert |paths[0]| == 1 && |paths[1]| == 3 && |paths[2]| == 3;
    forall p, q | p in paths && q in paths && Under(p, q)
      ensures !NothingShadows(paths, p)
    {
      assert p == paths[0];
    }
  }
}
