/** What the boundary check reports, against the import graph: exactly the forbidden edges, with shortest chains. */
module ImportReachability {
  import opened Wrappers
  import opened Texts
  import opened Ranges
  import opened Sequences
  import opened ModuleImports
  import opened SourceFacts
  import opened ModuleLoading
  import opened ImportBoundary

  ghost function EntryPath(entry: Entry): seq<Text> {
    PathOf(NodeOf(entry))
  }

  ghost function Depth(entry: Entry): nat {
    |EntryPath(entry)|
  }

  // An entry for the file, at the given depth or above, is somewhere in the queue.
  ghost predicate Queued(entries: seq<Entry>, file: Text, depth: int) {
    exists i :: 0 <= i < |entries| && entries[i].file == file && Depth(entries[i]) <= depth
  }

  ghost predicate Dequeued(done: seq<Entry>, file: Text) {
    exists i :: 0 <= i < |done| && done[i].file == file
  }

  lemma DequeuedGrows(done: seq<Entry>, entry: Entry)
    ensures forall f :: Dequeued(done + [entry], f) <==> Dequeued(done, f) || f == entry.file
  {
    var more := done + [entry];
    assert more[|done|] == entry;
    forall f | Dequeued(done, f) ensures Dequeued(more, f) {
      var i :| 0 <= i < |done| && done[i].file == f;
      assert more[i].file == f;
    }
    forall f | Dequeued(more, f) && f != entry.file ensures Dequeued(done, f) {
      var i :| 0 <= i < |more| && more[i].file == f;
      assert done[i].file == f;
    }
  }

  ghost predicate Sound(project: Project, boundary: Boundary, entry: Entry) {
    WalkTo(project, boundary, EntryPath(entry), entry.file) && entry.root == EntryPath(entry)[0]
  }

  ghost predicate Ordered(entries: seq<Entry>) {
    forall i, j :: 0 <= i < j < |entries| ==> Depth(entries[i]) <= Depth(entries[j])
  }

  ghost predicate Closed(project: Project, boundary: Boundary, done: seq<Entry>, pending: seq<Entry>) {
    forall i, t :: 0 <= i < |done| && Follows(project, boundary, done[i].file, t) ==>
      Queued(done + pending, t, Depth(done[i]) + 1)
  }

  // What every step of the traversal keeps: the queue holds real walks in order of depth, spanning at most
  // two depths ahead of the cursor, and covers the successors of everything dequeued.
  ghost predicate Inv(project: Project, boundary: Boundary, done: seq<Entry>, pending: seq<Entry>, visited: set<Text>) {
    && InProject(project, pending)
    && AllSound(project, boundary, done + pending)
    && Ordered(done + pending)
    && Spanning(done + pending, pending)
    && (forall f :: f in visited <==> Dequeued(done, f))
    && RootsQueued(project, boundary, done + pending)
    && Closed(project, boundary, done, pending)
  }

  ghost predicate AllSound(project: Project, boundary: Boundary, entries: seq<Entry>) {
    forall x :: x in entries ==> Sound(project, boundary, x)
  }

  ghost predicate Spanning(all: seq<Entry>, pending: seq<Entry>) {
    pending != [] && all != [] ==> Depth(all[|all| - 1]) <= Depth(pending[0]) + 1
  }

  ghost predicate RootsQueued(project: Project, boundary: Boundary, entries: seq<Entry>) {
    forall f :: IsRoot(project, boundary, f) ==> Queued(entries, f, 1)
  }

  lemma QueuedGrows(entries: seq<Entry>, more: seq<Entry>, file: Text, depth: int, larger: int)
    requires Queued(entries, file, depth) && depth <= larger
    ensures Queued(entries + more, file, larger)
  {
    var i :| 0 <= i < |entries| && entries[i].file == file && Depth(entries[i]) <= depth;
    assert (entries + more)[i] == entries[i];
  }

  lemma InvInit(project: Project, boundary: Boundary)
    ensures Inv(project, boundary, [], RootEntries(project, boundary), {})
  {
    RootsInit(project, boundary);
    RootEntriesSound(project, boundary);
    InvOfRoots(project, boundary, RootEntries(project, boundary));
  }

  lemma InvOfRoots(project: Project, boundary: Boundary, entries: seq<Entry>)
    requires InProject(project, entries) && AllSound(project, boundary, entries) && RootsQueued(project, boundary, entries)
    requires forall x :: x in entries ==> Depth(x) == 1
    ensures Inv(project, boundary, [], entries, {})
  {
    assert [] + entries == entries;
  }

  lemma RootEntriesSound(project: Project, boundary: Boundary)
    ensures AllSound(project, boundary, RootEntries(project, boundary))
    ensures forall x :: x in RootEntries(project, boundary) ==> Depth(x) == 1
  {
    forall x | x in RootEntries(project, boundary) ensures Sound(project, boundary, x) && Depth(x) == 1 {
      assert EntryPath(x) == [x.file];
    }
  }

  lemma RootsInit(project: Project, boundary: Boundary)
    ensures RootsQueued(project, boundary, RootEntries(project, boundary))
  {
    var entries, roots := RootEntries(project, boundary), Roots(project, boundary);
    forall f | IsRoot(project, boundary, f) ensures Queued(entries, f, 1) {
      var i :| 0 <= i < |roots| && roots[i] == f;
    }
  }

  // Every walk no longer than the cursor's depth ends at a file that is already in the queue, at that depth or above.
  lemma {:induction false} Near(project: Project, boundary: Boundary, done: seq<Entry>, pending: seq<Entry>,
                                visited: set<Text>, walk: seq<Text>)
    requires Inv(project, boundary, done, pending, visited) && IsWalk(project, boundary, walk)
    requires pending == [] || |walk| <= Depth(pending[0])
    ensures Queued(done + pending, walk[|walk| - 1], |walk|)
  {
    var all := done + pending;
    if |walk| > 1 {
      var shorter := walk[..|walk| - 1];
      Near(project, boundary, done, pending, visited, shorter);
      var from, to := walk[|walk| - 2], walk[|walk| - 1];
      assert Follows(project, boundary, walk[|walk| - 2], walk[|walk| - 2 + 1]);
      var i :| 0 <= i < |all| && all[i].file == from && Depth(all[i]) <= |shorter|;
      assert i < |done| by {
        assert pending != [] ==> all[|done|] == pending[0];
      }
      QueuedGrows(all, [], to, Depth(done[i]) + 1, |walk|);
      assert all + [] == all;
    }
  }

  // The path of the first entry dequeued for a file is a shortest walk to it.
  lemma ShortestAtDequeue(project: Project, boundary: Boundary, done: seq<Entry>, pending: seq<Entry>, visited: set<Text>)
    requires Inv(project, boundary, done, pending, visited)
    requires pending != [] && pending[0].file !in visited
    ensures Shortest(project, boundary, EntryPath(pending[0]), pending[0].file)
  {
    var all := done + pending;
    var current := pending[0];
    assert all[|done|] == current;
    assert Sound(project, boundary, current);
    forall walk | WalkTo(project, boundary, walk, current.file) ensures Depth(current) <= |walk| {
      if |walk| <= Depth(current) {
        Near(project, boundary, done, pending, visited, walk);
        var i :| 0 <= i < |all| && all[i].file == current.file && Depth(all[i]) <= |walk|;
        assert i >= |done| by {
          assert !Dequeued(done, current.file);
        }
      }
    }
  }

  // A duplicate entry is skipped: its file's successors were queued when the file was first dequeued.
  lemma InvSkip(project: Project, boundary: Boundary, done: seq<Entry>, pending: seq<Entry>, visited: set<Text>)
    requires Inv(project, boundary, done, pending, visited)
    requires pending != [] && pending[0].file in visited
    ensures Inv(project, boundary, done + [pending[0]], pending[1..], visited)
  {
    MoveHead(done, pending, []);
    var all := done + pending;
    assert all + [] == all && pending[1..] + [] == pending[1..];
    DequeuedGrows(done, pending[0]);
    SkipClosed(project, boundary, done, pending, visited);
    PushedOrdered(all, [], Depth(pending[0]) + 1);
    LastWithinReach(done + [pending[0]], pending[1..], all);
  }

  lemma SkipClosed(project: Project, boundary: Boundary, done: seq<Entry>, pending: seq<Entry>, visited: set<Text>)
    requires Inv(project, boundary, done, pending, visited)
    requires pending != [] && pending[0].file in visited
    ensures Closed(project, boundary, done + [pending[0]], pending[1..])
  {
    var all := done + pending;
    var done' := done + [pending[0]];
    assert done' + pending[1..] == all;
    assert Dequeued(done, pending[0].file);
    var first :| 0 <= first < |done| && done[first].file == pending[0].file;
    assert all[first] == done[first] && all[|done|] == pending[0];
    forall i, t | 0 <= i < |done'| && Follows(project, boundary, done'[i].file, t) ensures Queued(all, t, Depth(done'[i]) + 1) {
      var k := if i < |done| then i else first;
      assert Queued(all, t, Depth(done[k]) + 1);
      QueuedGrows(all, [], t, Depth(done[k]) + 1, Depth(done'[i]) + 1);
      assert all + [] == all;
    }
  }

  ghost function PushedBy(project: Project, boundary: Boundary, current: Entry, visited: set<Text>): seq<Entry> {
    Pushes(project, boundary, visited + {current.file}, Visit(current.root, NodeOf(current)), Edges(project, current.file))
  }

  lemma PushedByMeaning(project: Project, boundary: Boundary, current: Entry, visited: set<Text>)
    ensures InProject(project, [current]) ==> InProject(project, PushedBy(project, boundary, current, visited))
    ensures forall x :: x in PushedBy(project, boundary, current, visited) <==>
      && x == Entry(x.file, current.root, Some(NodeOf(current)))
      && x.file !in visited && x.file != current.file && Follows(project, boundary, current.file, x.file)
  {
    PushesMeaning(project, boundary, visited + {current.file}, Visit(current.root, NodeOf(current)), Edges(project, current.file));
    EdgesExact(project, current.file);
    assert current in [current];
  }

  // An unvisited entry is processed: its open targets that are not visited yet go to the end of the queue.
  lemma InvVisit(project: Project, boundary: Boundary, done: seq<Entry>, pending: seq<Entry>, visited: set<Text>)
    requires Inv(project, boundary, done, pending, visited)
    requires pending != [] && pending[0].file !in visited
    ensures Inv(project, boundary, done + [pending[0]],
                pending[1..] + PushedBy(project, boundary, pending[0], visited), visited + {pending[0].file})
  {
    var pushed := PushedBy(project, boundary, pending[0], visited);
    MoveHead(done, pending, pushed);
    DequeuedGrows(done, pending[0]);
    VisitSound(project, boundary, done, pending, visited);
    VisitClosed(project, boundary, done, pending, visited);
    LastWithinReach(done + [pending[0]], pending[1..] + pushed, done + pending + pushed);
    forall f | IsRoot(project, boundary, f) ensures Queued(done + pending + pushed, f, 1) {
      QueuedGrows(done + pending, pushed, f, 1, 1);
    }
  }

  lemma VisitSound(project: Project, boundary: Boundary, done: seq<Entry>, pending: seq<Entry>, visited: set<Text>)
    requires Inv(project, boundary, done, pending, visited) && pending != []
    ensures
      var pushed := PushedBy(project, boundary, pending[0], visited);
      var all := done + pending + pushed;
      && InProject(project, pending[1..] + pushed)
      && AllSound(project, boundary, all) && Ordered(all)
      && forall x :: x in all ==> Depth(x) <= Depth(pending[0]) + 1
  {
    var current := pending[0];
    var pushed := PushedBy(project, boundary, current, visited);
    PushedByMeaning(project, boundary, current, visited);
    assert current in pending;
    assert InProject(project, pending[1..] + pushed) by {
      assert forall e :: e in pending[1..] + pushed ==> e in pending || e in pushed;
    }
    assert current in done + pending;
    PushedSound(project, boundary, current, pushed);
    PushedOrdered(done + pending, pushed, Depth(current) + 1);
  }

  // The last entry is at most one level deeper than the first pending one.
  lemma LastWithinReach(done: seq<Entry>, pending: seq<Entry>, all: seq<Entry>)
    requires all == done + pending && Ordered(all) && done != []
    requires forall x :: x in all ==> Depth(x) <= Depth(done[|done| - 1]) + 1
    ensures Spanning(all, pending)
  {
    if pending != [] {
      assert all[|done|] == pending[0] && all[|done| - 1] == done[|done| - 1];
      assert Depth(all[|done| - 1]) <= Depth(all[|done|]);
      assert all[|all| - 1] in all;
    }
  }

  lemma PushedSound(project: Project, boundary: Boundary, current: Entry, pushed: seq<Entry>)
    requires Sound(project, boundary, current)
    requires forall x :: x in pushed ==>
      x.root == current.root && x.parent == Some(NodeOf(current)) && Follows(project, boundary, current.file, x.file)
    ensures forall x :: x in pushed ==> Sound(project, boundary, x) && Depth(x) == Depth(current) + 1
  {
    forall x | x in pushed ensures Sound(project, boundary, x) && Depth(x) == Depth(current) + 1 {
      var path := EntryPath(current);
      assert EntryPath(x) == path + [x.file];
      forall i | 0 <= i < |path| ensures Follows(project, boundary, EntryPath(x)[i], EntryPath(x)[i + 1]) {
        if i < |path| - 1 {
          assert Follows(project, boundary, path[i], path[i + 1]);
        }
      }
    }
  }

  lemma PushedOrdered(all: seq<Entry>, pushed: seq<Entry>, depth: int)
    requires Ordered(all) && (all != [] ==> Depth(all[|all| - 1]) <= depth)
    requires forall x :: x in pushed ==> Depth(x) == depth
    ensures Ordered(all + pushed)
    ensures forall x :: x in all + pushed ==> Depth(x) <= depth
  {
    forall i | 0 <= i < |all| ensures Depth(all[i]) <= depth {
      if i < |all| - 1 {
        assert Depth(all[i]) <= Depth(all[|all| - 1]);
      }
    }
    forall i, j | 0 <= i < j < |all + pushed| ensures Depth((all + pushed)[i]) <= Depth((all + pushed)[j]) {
      assert j >= |all| ==> (all + pushed)[j] in pushed;
      assert i >= |all| ==> (all + pushed)[i] in pushed;
    }
  }

  // Every open target of the entry being processed is in the queue, one level deeper at most.
  lemma SuccessorQueued(project: Project, boundary: Boundary, done: seq<Entry>, pending: seq<Entry>, visited: set<Text>, t: Text)
    requires Inv(project, boundary, done, pending, visited) && pending != []
    requires Follows(project, boundary, pending[0].file, t)
    ensures Queued(done + pending + PushedBy(project, boundary, pending[0], visited), t, Depth(pending[0]) + 1)
  {
    var current := pending[0];
    var pushed := PushedBy(project, boundary, current, visited);
    var all := done + pending;
    assert all[|done|] == current;
    if t == current.file {
      assert (all + pushed)[|done|].file == t;
    } else if t in visited {
      EarlierQueued(project, boundary, done, pending, visited, t);
      QueuedGrows(all, pushed, t, Depth(current), Depth(current) + 1);
    } else {
      PushedQueued(project, boundary, current, visited, t, all);
    }
  }

  // What was dequeued before the cursor is no deeper.
  lemma EarlierQueued(project: Project, boundary: Boundary, done: seq<Entry>, pending: seq<Entry>, visited: set<Text>, t: Text)
    requires Inv(project, boundary, done, pending, visited) && pending != [] && t in visited
    ensures Queued(done + pending, t, Depth(pending[0]))
  {
    var all := done + pending;
    assert Dequeued(done, t);
    var k :| 0 <= k < |done| && done[k].file == t;
    assert all[k] == done[k] && all[|done|] == pending[0];
    assert Depth(all[k]) <= Depth(all[|done|]);
  }

  lemma PushedQueued(project: Project, boundary: Boundary, current: Entry, visited: set<Text>, t: Text, all: seq<Entry>)
    requires Follows(project, boundary, current.file, t) && t !in visited && t != current.file
    ensures Queued(all + PushedBy(project, boundary, current, visited), t, Depth(current) + 1)
  {
    var pushed := PushedBy(project, boundary, current, visited);
    PushedByMeaning(project, boundary, current, visited);
    var x := Entry(t, current.root, Some(NodeOf(current)));
    assert x in pushed;
    var k :| 0 <= k < |pushed| && pushed[k] == x;
    assert (all + pushed)[|all| + k] == x;
    assert EntryPath(x) == EntryPath(current) + [t];
  }

  lemma VisitClosed(project: Project, boundary: Boundary, done: seq<Entry>, pending: seq<Entry>, visited: set<Text>)
    requires Inv(project, boundary, done, pending, visited) && pending != []
    ensures Closed(project, boundary, done + [pending[0]], pending[1..] + PushedBy(project, boundary, pending[0], visited))
  {
    var pushed := PushedBy(project, boundary, pending[0], visited);
    var done', pending' := done + [pending[0]], pending[1..] + pushed;
    MoveHead(done, pending, pushed);
    forall i, t | 0 <= i < |done'| && Follows(project, boundary, done'[i].file, t)
      ensures Queued(done' + pending', t, Depth(done'[i]) + 1)
    {
      if i < |done| {
        QueuedGrows(done + pending, pushed, t, Depth(done[i]) + 1, Depth(done[i]) + 1);
      } else {
        SuccessorQueued(project, boundary, done, pending, visited, t);
      }
    }
  }

  // ----- Whole runs -----

  ghost predicate VisitCorrect(project: Project, boundary: Boundary, visit: Visit) {
    && Shortest(project, boundary, PathOf(visit.node), visit.node.file)
    && visit.root == PathOf(visit.node)[0]
    && LoadModule(project, visit.node.file).Success?
  }

  ghost predicate FilesDistinct(visits: seq<Visit>) {
    forall i, j :: 0 <= i < j < |visits| ==> visits[i].node.file != visits[j].node.file
  }

  ghost predicate Visited(visits: seq<Visit>, file: Text) {
    exists i :: 0 <= i < |visits| && visits[i].node.file == file
  }

  // When the queue is used up, every walk ends at a dequeued file.
  lemma ReachableDequeued(project: Project, boundary: Boundary, done: seq<Entry>, visited: set<Text>, file: Text)
    requires Inv(project, boundary, done, [], visited) && Reachable(project, boundary, file)
    ensures file in visited
  {
    var walk :| WalkTo(project, boundary, walk, file);
    Near(project, boundary, done, [], visited, walk);
    assert done + [] == done;
    assert Dequeued(done, file);
  }

  ghost predicate Outcome(project: Project, boundary: Boundary, visited: set<Text>, r: Result<seq<Visit>, InputFailure>) {
    match r
    case Failure(error) => StopsReachably(project, boundary, error)
    case Success(visits) =>
      && NewVisits(project, boundary, visited, visits)
      && FilesDistinct(visits)
      && Covers(project, boundary, visited, visits)
  }

  ghost predicate StopsReachably(project: Project, boundary: Boundary, error: InputFailure) {
    exists f :: Reachable(project, boundary, f) && LoadModule(project, f) == Failure(error)
  }

  // Each visit is correct and of a file that was not visited before.
  ghost predicate NewVisits(project: Project, boundary: Boundary, visited: set<Text>, visits: seq<Visit>) {
    forall v :: v in visits ==> VisitCorrect(project, boundary, v) && v.node.file !in visited
  }

  ghost predicate Covers(project: Project, boundary: Boundary, visited: set<Text>, visits: seq<Visit>) {
    forall f :: Reachable(project, boundary, f) ==> f in visited || Visited(visits, f)
  }

  // From any state the traversal can be in, it fails only with the failure of a reachable module, and otherwise
  // visits every reachable module that was not visited before, once, along a shortest walk.
  lemma {:induction false} ExploreCorrect(project: Project, boundary: Boundary,
                                          done: seq<Entry>, pending: seq<Entry>, visited: set<Text>)
    requires Inv(project, boundary, done, pending, visited)
    ensures Outcome(project, boundary, visited, Explore(project, boundary, pending, visited))
    decreases project.roles.Keys - visited, |pending|
  {
    if pending == [] {
      forall f | Reachable(project, boundary, f) ensures f in visited {
        ReachableDequeued(project, boundary, done, visited, f);
      }
    } else if pending[0].file in visited {
      InvSkip(project, boundary, done, pending, visited);
      ExploreCorrect(project, boundary, done + [pending[0]], pending[1..], visited);
    } else {
      var current := pending[0];
      ShortestAtDequeue(project, boundary, done, pending, visited);
      assert Reachable(project, boundary, current.file);
      if LoadModule(project, current.file).Success? {
        InvVisit(project, boundary, done, pending, visited);
        ExploreCorrect(project, boundary, done + [current],
                       pending[1..] + PushedBy(project, boundary, current, visited), visited + {current.file});
        assert Sound(project, boundary, current) by {
          assert (done + pending)[|done|] == current;
        }
        OutcomeVisit(project, boundary, pending, visited);
      }
    }
  }

  lemma OutcomeVisit(project: Project, boundary: Boundary, pending: seq<Entry>, visited: set<Text>)
    requires InProject(project, pending) && pending != [] && pending[0].file !in visited
    requires VisitCorrect(project, boundary, Visit(pending[0].root, NodeOf(pending[0])))
    requires
      var next := pending[1..] + PushedBy(project, boundary, pending[0], visited);
      && InProject(project, next)
      && Outcome(project, boundary, visited + {pending[0].file}, Explore(project, boundary, next, visited + {pending[0].file}))
    ensures Outcome(project, boundary, visited, Explore(project, boundary, pending, visited))
  {
    ExploreHead(project, boundary, pending, visited);
    var r := Explore(project, boundary, pending, visited);
    if r.Success? {
      OutcomeHead(project, boundary, visited, r.value);
    }
  }

  // A first visit goes before the visits of an outcome.
  lemma OutcomeHead(project: Project, boundary: Boundary, visited: set<Text>, visits: seq<Visit>)
    requires visits != [] && VisitCorrect(project, boundary, visits[0]) && visits[0].node.file !in visited
    requires Outcome(project, boundary, visited + {visits[0].node.file}, Success(visits[1..]))
    ensures Outcome(project, boundary, visited, Success(visits))
  {
    HeadNew(project, boundary, visited, visits);
    HeadDistinct(visits);
    HeadCovers(project, boundary, visited, visits);
  }

  lemma HeadNew(project: Project, boundary: Boundary, visited: set<Text>, visits: seq<Visit>)
    requires visits != [] && VisitCorrect(project, boundary, visits[0]) && visits[0].node.file !in visited
    requires NewVisits(project, boundary, visited + {visits[0].node.file}, visits[1..])
    ensures NewVisits(project, boundary, visited, visits)
  {
    assert visits == [visits[0]] + visits[1..];
  }

  lemma HeadCovers(project: Project, boundary: Boundary, visited: set<Text>, visits: seq<Visit>)
    requires visits != [] && Covers(project, boundary, visited + {visits[0].node.file}, visits[1..])
    ensures Covers(project, boundary, visited, visits)
  {
    forall f | Reachable(project, boundary, f) ensures f in visited || Visited(visits, f) {
      if f == visits[0].node.file {
        assert visits[0].node.file == f;
      } else if f !in visited {
        var i :| 0 <= i < |visits[1..]| && visits[1..][i].node.file == f;
        assert visits[i + 1].node.file == f;
      }
    }
  }

  lemma HeadDistinct(visits: seq<Visit>)
    requires visits != [] && FilesDistinct(visits[1..])
    requires forall v :: v in visits[1..] ==> v.node.file != visits[0].node.file
    ensures FilesDistinct(visits)
  {
    forall i, j | 0 <= i < j < |visits| ensures visits[i].node.file != visits[j].node.file {
      assert visits[j] == visits[1..][j - 1] && visits[j] in visits[1..];
      if i > 0 {
        assert visits[i] == visits[1..][i - 1];
      }
    }
  }

  lemma ExploreHead(project: Project, boundary: Boundary, pending: seq<Entry>, visited: set<Text>)
    requires InProject(project, pending) && pending != [] && pending[0].file !in visited
    requires LoadModule(project, pending[0].file).Success?
    ensures
      var next := pending[1..] + PushedBy(project, boundary, pending[0], visited);
      && InProject(project, next)
      && Explore(project, boundary, pending, visited)
      == match Explore(project, boundary, next, visited + {pending[0].file})
         case Failure(error) => Failure(error)
         case Success(rest) => Success([Visit(pending[0].root, NodeOf(pending[0]))] + rest)
    ensures match Explore(project, boundary, pending, visited)
      case Failure(_) => true
      case Success(visits) =>
        var rest := Explore(project, boundary, pending[1..] + PushedBy(project, boundary, pending[0], visited), visited + {pending[0].file});
        && visits != [] && visits[0] == Visit(pending[0].root, NodeOf(pending[0])) && rest == Success(visits[1..])
        && forall f :: Visited(visits, f) <==> f == pending[0].file || Visited(visits[1..], f)
  {
    PushedByMeaning(project, boundary, pending[0], visited);
    var next := pending[1..] + PushedBy(project, boundary, pending[0], visited);
    assert InProject(project, [pending[0]]);
    assert forall e :: e in next ==> e in pending || e in PushedBy(project, boundary, pending[0], visited);
    if Explore(project, boundary, pending, visited).Success? {
      var visits := Explore(project, boundary, pending, visited).value;
      forall f ensures Visited(visits, f) <==> f == pending[0].file || Visited(visits[1..], f) {
        VisitedSplit(visits, f);
      }
    }
  }

  lemma VisitedSplit(visits: seq<Visit>, file: Text)
    requires visits != []
    ensures Visited(visits, file) <==> visits[0].node.file == file || Visited(visits[1..], file)
  {
    if Visited(visits[1..], file) {
      var i :| 0 <= i < |visits[1..]| && visits[1..][i].node.file == file;
      assert visits[i + 1].node.file == file;
    }
    if Visited(visits, file) && visits[0].node.file != file {
      var i :| 0 <= i < |visits| && visits[i].node.file == file;
      assert visits[1..][i - 1].node.file == file;
    }
  }

  // ----- What a report says -----

  // How often a report names an edge of a file, and an unsupported import of a file.
  function ViolationCount(report: seq<Diagnostic>, file: Text, edge: Edge): nat {
    if report == [] then 0
    else
      var last := report[|report| - 1];
      ViolationCount(report[..|report| - 1], file, edge)
      + if last.Violation? && last.file == file && last.edge == edge then 1 else 0
  }

  function DynamicCount(report: seq<Diagnostic>, file: Text, range: Range): nat {
    if report == [] then 0
    else
      var last := report[|report| - 1];
      DynamicCount(report[..|report| - 1], file, range)
      + if last.DynamicImport? && last.file == file && last.range == range then 1 else 0
  }

  ghost predicate ChainCorrect(project: Project, boundary: Boundary, d: Diagnostic)
    requires d.Violation?
  {
    && |d.chain| >= 2 && ImportsEdge(project, d.file, d.edge) && IsDenied(project, boundary, d.edge)
    && d.chain[|d.chain| - 1] == d.edge.target
    && Shortest(project, boundary, d.chain[..|d.chain| - 1], d.file)
    && d.chain[0] in project.roles && d.sourceRole == project.roles[d.chain[0]]
    && d.targetRole == project.roles[d.edge.target] && d.boundary == boundary.id
  }

  lemma {:induction false} CountConcat(a: seq<Diagnostic>, b: seq<Diagnostic>, file: Text, edge: Edge, range: Range)
    ensures ViolationCount(a + b, file, edge) == ViolationCount(a, file, edge) + ViolationCount(b, file, edge)
    ensures DynamicCount(a + b, file, range) == DynamicCount(a, file, range) + DynamicCount(b, file, range)
  {
    if b == [] {
      assert a + b == a;
    } else {
      assert (a + b)[..|a + b| - 1] == a + b[..|b| - 1];
      CountConcat(a, b[..|b| - 1], file, edge, range);
    }
  }

  lemma {:induction false} DynamicReportsCount(boundary: Boundary, own: Text, ranges: seq<Range>, file: Text, edge: Edge, range: Range)
    ensures ViolationCount(DynamicReports(boundary, own, ranges), file, edge) == 0
    ensures DynamicCount(DynamicReports(boundary, own, ranges), file, range) == if file == own then multiset(ranges)[range] else 0
  {
    if ranges != [] {
      var k := |ranges| - 1;
      DynamicReportsCount(boundary, own, ranges[..k], file, edge, range);
      assert DynamicReports(boundary, own, ranges)[..k] == DynamicReports(boundary, own, ranges[..k]);
      assert ranges == ranges[..k] + [ranges[k]];
    }
  }

  lemma {:induction false} DeniedReportsShape(project: Project, boundary: Boundary, root: Text, path: seq<Text>, edges: seq<Edge>)
    requires root in project.roles && path != []
    ensures forall d :: d in DeniedReports(project, boundary, root, path, edges) ==>
      && d.Violation? && d.edge in edges && IsDenied(project, boundary, d.edge)
      && d == EdgeReport(project, boundary, root, path + [d.edge.target], d.edge)
  {
    if edges != [] {
      DeniedReportsShape(project, boundary, root, path, edges[..|edges| - 1]);
    }
  }

  lemma {:induction false} DeniedNotDynamic(project: Project, boundary: Boundary, root: Text, path: seq<Text>, edges: seq<Edge>,
                                            file: Text, range: Range)
    requires root in project.roles && path != []
    ensures DynamicCount(DeniedReports(project, boundary, root, path, edges), file, range) == 0
  {
    if edges != [] {
      var before, last := edges[..|edges| - 1], edges[|edges| - 1];
      assert edges == before + [last];
      DeniedNotDynamic(project, boundary, root, path, before, file, range);
      LastDeniedCount(project, boundary, root, path, before, last, file, last, range);
      EdgeReportsCount(project, boundary, root, path, last, file, last, range);
    }
  }

  lemma {:induction false} DeniedReportsCount(project: Project, boundary: Boundary, root: Text, path: seq<Text>, edges: seq<Edge>,
                                              file: Text, edge: Edge)
    requires root in project.roles && path != []
    ensures ViolationCount(DeniedReports(project, boundary, root, path, edges), file, edge)
         == if file == path[|path| - 1] && IsDenied(project, boundary, edge) then multiset(edges)[edge] else 0
  {
    if edges != [] {
      var before, last := edges[..|edges| - 1], edges[|edges| - 1];
      assert edges == before + [last];
      DeniedReportsCount(project, boundary, root, path, before, file, edge);
      LastDeniedCount(project, boundary, root, path, before, last, file, edge, edge.range);
      EdgeReportsCount(project, boundary, root, path, last, file, edge, edge.range);
      OccursLast(before, last, edge);
    }
  }

  lemma LastDeniedCount(project: Project, boundary: Boundary, root: Text, path: seq<Text>, before: seq<Edge>, last: Edge,
                        file: Text, edge: Edge, range: Range)
    requires root in project.roles && path != []
    ensures
      var all := DeniedReports(project, boundary, root, path, before + [last]);
      var earlier, own := DeniedReports(project, boundary, root, path, before), EdgeReports(project, boundary, root, path, last);
      && ViolationCount(all, file, edge) == ViolationCount(earlier, file, edge) + ViolationCount(own, file, edge)
      && DynamicCount(all, file, range) == DynamicCount(earlier, file, range) + DynamicCount(own, file, range)
  {
    assert (before + [last])[..|before + [last]| - 1] == before;
    CountConcat(DeniedReports(project, boundary, root, path, before), EdgeReports(project, boundary, root, path, last), file, edge, range);
  }

  lemma OccursLast(before: seq<Edge>, last: Edge, edge: Edge)
    ensures multiset(before + [last])[edge] == multiset(before)[edge] + if edge == last then 1 else 0
  {
  }

  lemma EdgeReportsCount(project: Project, boundary: Boundary, root: Text, path: seq<Text>, last: Edge,
                         file: Text, edge: Edge, range: Range)
    requires root in project.roles && path != []
    ensures DynamicCount(EdgeReports(project, boundary, root, path, last), file, range) == 0
    ensures ViolationCount(EdgeReports(project, boundary, root, path, last), file, edge)
         == if file == path[|path| - 1] && IsDenied(project, boundary, edge) && edge == last then 1 else 0
  {
    if IsDenied(project, boundary, last) {
      var report := EdgeReport(project, boundary, root, path + [last.target], last);
      assert report.file == path[|path| - 1];
      assert [report][..0] == [];
    }
  }

  lemma VisitReportsCount(project: Project, boundary: Boundary, visit: Visit, file: Text, edge: Edge, range: Range)
    requires visit.root in project.roles
    ensures ViolationCount(VisitReports(project, boundary, visit), file, edge)
         == if file == visit.node.file && IsDenied(project, boundary, edge) then multiset(Edges(project, file))[edge] else 0
    ensures DynamicCount(VisitReports(project, boundary, visit), file, range)
         == if file == visit.node.file then multiset(Unsupported(project, file))[range] else 0
  {
    var own := visit.node.file;
    var dynamic := DynamicReports(boundary, own, Unsupported(project, own));
    var denied := DeniedReports(project, boundary, visit.root, PathOf(visit.node), Edges(project, own));
    CountConcat(dynamic, denied, file, edge, range);
    DynamicReportsCount(boundary, own, Unsupported(project, own), file, edge, range);
    DeniedReportsCount(project, boundary, visit.root, PathOf(visit.node), Edges(project, own), file, edge);
    DeniedNotDynamic(project, boundary, visit.root, PathOf(visit.node), Edges(project, own), file, range);
  }

  lemma VisitChainsCorrect(project: Project, boundary: Boundary, visit: Visit)
    requires visit.root in project.roles && VisitCorrect(project, boundary, visit)
    ensures forall d :: d in VisitReports(project, boundary, visit) && d.Violation? ==> ChainCorrect(project, boundary, d)
  {
    var path := PathOf(visit.node);
    var edges := Edges(project, visit.node.file);
    forall d | d in VisitReports(project, boundary, visit) && d.Violation? ensures ChainCorrect(project, boundary, d) {
      assert d in DeniedReports(project, boundary, visit.root, path, edges);
      DeniedReportsShape(project, boundary, visit.root, path, edges);
      assert d == EdgeReport(project, boundary, visit.root, path + [d.edge.target], d.edge);
      EdgeExact(project, visit.node.file, d.edge);
      assert d.chain[..|d.chain| - 1] == path;
    }
  }

  lemma {:induction false} ReportsCount(project: Project, boundary: Boundary, visits: seq<Visit>, file: Text, edge: Edge, range: Range)
    requires forall v :: v in visits ==> v.root in project.roles
    requires FilesDistinct(visits)
    ensures ViolationCount(Reports(project, boundary, visits), file, edge)
         == if Visited(visits, file) && IsDenied(project, boundary, edge) then multiset(Edges(project, file))[edge] else 0
    ensures DynamicCount(Reports(project, boundary, visits), file, range)
         == if Visited(visits, file) then multiset(Unsupported(project, file))[range] else 0
  {
    if visits != [] {
      ReportsCount(project, boundary, visits[1..], file, edge, range);
      FirstReportsCount(project, boundary, visits, file, edge, range);
      VisitReportsCount(project, boundary, visits[0], file, edge, range);
      VisitedSplit(visits, file);
      VisitedOnce(visits, file);
    }
  }

  lemma FirstReportsCount(project: Project, boundary: Boundary, visits: seq<Visit>, file: Text, edge: Edge, range: Range)
    requires visits != [] && forall v :: v in visits ==> v.root in project.roles
    ensures
      var first, rest := VisitReports(project, boundary, visits[0]), Reports(project, boundary, visits[1..]);
      && ViolationCount(Reports(project, boundary, visits), file, edge) == ViolationCount(first, file, edge) + ViolationCount(rest, file, edge)
      && DynamicCount(Reports(project, boundary, visits), file, range) == DynamicCount(first, file, range) + DynamicCount(rest, file, range)
  {
    CountConcat(VisitReports(project, boundary, visits[0]), Reports(project, boundary, visits[1..]), file, edge, range);
  }

  lemma VisitedOnce(visits: seq<Visit>, file: Text)
    requires visits != [] && FilesDistinct(visits)
    ensures Visited(visits[1..], file) ==> file != visits[0].node.file
  {
    if i :| 0 <= i < |visits[1..]| && visits[1..][i].node.file == file {
      assert visits[i + 1].node.file == file;
    }
  }

  lemma {:induction false} ReportsChains(project: Project, boundary: Boundary, visits: seq<Visit>)
    requires forall v :: v in visits ==> v.root in project.roles && VisitCorrect(project, boundary, v)
    ensures forall d :: d in Reports(project, boundary, visits) && d.Violation? ==> ChainCorrect(project, boundary, d)
  {
    if visits != [] {
      VisitChainsCorrect(project, boundary, visits[0]);
      ReportsChains(project, boundary, visits[1..]);
    }
  }

  // What a result says about one edge and one unsupported import of one file.
  ghost predicate Exact(project: Project, boundary: Boundary, r: Result<seq<Diagnostic>, InputFailure>,
                        file: Text, edge: Edge, range: Range)
  {
    match r
    case Failure(error) => FailsReachably(project, boundary, error)
    case Success(report) => CountsExactly(project, boundary, report, file, edge, range)
  }

  ghost predicate FailsReachably(project: Project, boundary: Boundary, error: InputFailure) {
    exists f :: Reachable(project, boundary, f) && LoadFails(project, f, error)
  }

  ghost predicate CountsExactly(project: Project, boundary: Boundary, report: seq<Diagnostic>, file: Text, edge: Edge, range: Range) {
    && (Reachable(project, boundary, file) ==> Loads(project, file))
    && ViolationCount(report, file, edge)
       == (if Reachable(project, boundary, file) && ImportsEdge(project, file, edge) && IsDenied(project, boundary, edge) then 1 else 0)
    && DynamicCount(report, file, range)
       == (if Reachable(project, boundary, file) then multiset(UnsupportedIn(project, file))[range] else 0)
  }

  // The dynamic imports of a module's text without a literal specifier.
  ghost function UnsupportedIn(project: Project, file: Text): seq<Range> {
    if project.sources.read(file).Success?
    then project.sources.collect(project.sources.read(file).value, file).unsupported else []
  }

  lemma ReportOfVisits(project: Project, boundary: Boundary, r: Result<seq<Visit>, InputFailure>)
    requires r == Explore(project, boundary, RootEntries(project, boundary), {})
    ensures r.Failure? ==> TransitiveReport(project, boundary) == Failure(r.error)
    ensures r.Success? ==> TransitiveReport(project, boundary) == Success(Reports(project, boundary, r.value))
  {
    if r.Success? {
      assert [] + Reports(project, boundary, r.value) == Reports(project, boundary, r.value);
    }
  }

  // The transitive check fails exactly when a reachable module does not load, with the failure of such a module;
  // otherwise it names once each import of the reachable modules that is resolved to a file of a denied role, and each
  // unsupported import as often as it occurs there, and nothing else.
  lemma TransitiveExact(project: Project, boundary: Boundary, file: Text, edge: Edge, range: Range)
    ensures Exact(project, boundary, TransitiveReport(project, boundary), file, edge, range)
  {
    var r := Explore(project, boundary, RootEntries(project, boundary), {});
    ReportOfVisits(project, boundary, r);
    InvInit(project, boundary);
    ExploreCorrect(project, boundary, [], RootEntries(project, boundary), {});
    if r.Success? {
      VisitsExact(project, boundary, r.value, file, edge, range);
    } else {
      StoppedFails(project, boundary, r.error);
    }
  }

  lemma StoppedFails(project: Project, boundary: Boundary, error: InputFailure)
    requires StopsReachably(project, boundary, error)
    ensures FailsReachably(project, boundary, error)
  {
    var f :| Reachable(project, boundary, f) && LoadModule(project, f) == Failure(error);
    LoadFailsExactly(project, f, error);
  }

  lemma VisitsExact(project: Project, boundary: Boundary, visits: seq<Visit>, file: Text, edge: Edge, range: Range)
    requires Outcome(project, boundary, {}, Success(visits)) && forall v :: v in visits ==> v.root in project.roles
    ensures CountsExactly(project, boundary, Reports(project, boundary, visits), file, edge, range)
  {
    ReportsCount(project, boundary, visits, file, edge, range);
    VisitedExactly(project, boundary, visits, file);
    EdgesOnce(project, file, edge);
    LoadedImports(project, file);
  }

  lemma LoadedImports(project: Project, file: Text)
    ensures LoadModule(project, file).Success? <==> Loads(project, file)
    ensures Loads(project, file) ==> Unsupported(project, file) == UnsupportedIn(project, file)
  {
    EdgesExact(project, file);
    LoadFailsExactly(project, file, Unreadable(file));
  }

  // The traversal from the roots visits exactly the reachable modules.
  lemma VisitedExactly(project: Project, boundary: Boundary, visits: seq<Visit>, file: Text)
    requires Outcome(project, boundary, {}, Success(visits))
    ensures Visited(visits, file) <==> Reachable(project, boundary, file)
    ensures Visited(visits, file) ==> LoadModule(project, file).Success?
  {
    if Visited(visits, file) {
      var i :| 0 <= i < |visits| && visits[i].node.file == file;
      assert visits[i] in visits && VisitCorrect(project, boundary, visits[i]);
    }
  }

  // A module has each edge that it imports once, and no other.
  lemma EdgesOnce(project: Project, file: Text, edge: Edge)
    ensures multiset(Edges(project, file))[edge] == if ImportsEdge(project, file, edge) then 1 else 0
  {
    EdgesExact(project, file);
    var edges := Edges(project, file);
    if edge in edges {
      var i :| 0 <= i < |edges| && edges[i] == edge;
      OnceIn(EdgeKey, edges, i);
    }
  }

  // Every chain in the report is a shortest walk from a root, through modules that are not denied, to the module
  // that owns the reported edge, followed by the edge's target.
  lemma TransitiveChains(project: Project, boundary: Boundary)
    ensures TransitiveReport(project, boundary).Success? ==>
      forall d :: d in TransitiveReport(project, boundary).value && d.Violation? ==> ChainCorrect(project, boundary, d)
  {
    var r := Explore(project, boundary, RootEntries(project, boundary), {});
    InvInit(project, boundary);
    ExploreCorrect(project, boundary, [], RootEntries(project, boundary), {});
    if r.Success? {
      ReportsChains(project, boundary, r.value);
    }
  }

  lemma {:induction false} CountedOccurs(report: seq<Diagnostic>, file: Text, edge: Edge, range: Range)
    ensures ViolationCount(report, file, edge) > 0 ==>
      exists d :: d in report && d.Violation? && d.file == file && d.edge == edge
    ensures DynamicCount(report, file, range) > 0 ==>
      exists d :: d in report && d.DynamicImport? && d.file == file && d.range == range
  {
    if report != [] {
      CountedOccurs(report[..|report| - 1], file, edge, range);
      var last := report[|report| - 1];
      assert last in report;
    }
  }

  lemma RootReachable(project: Project, boundary: Boundary, root: Text)
    requires IsRoot(project, boundary, root)
    ensures WalkTo(project, boundary, [root], root) && Reachable(project, boundary, root)
  {
    assert WalkTo(project, boundary, [root], root);
  }

  // What a successful check says about a root.
  lemma RootCounts(project: Project, boundary: Boundary, root: Text, edge: Edge, range: Range)
    requires IsRoot(project, boundary, root) && TransitiveReport(project, boundary).Success?
    ensures LoadModule(project, root).Success?
    ensures edge in Edges(project, root) && IsDenied(project, boundary, edge) ==>
      ViolationCount(TransitiveReport(project, boundary).value, root, edge) > 0
    ensures range in Unsupported(project, root) ==> DynamicCount(TransitiveReport(project, boundary).value, root, range) > 0
  {
    RootReachable(project, boundary, root);
    TransitiveExact(project, boundary, root, edge, range);
    LoadedImports(project, root);
    EdgeExact(project, root, edge);
  }

  // Whatever the direct mode of a boundary reports, its transitive mode reports too, word for word.
  lemma {:induction false} DirectWithinTransitive(project: Project, boundary: Boundary, roots: seq<Text>)
    requires forall f :: f in roots ==> IsRoot(project, boundary, f)
    requires TransitiveReport(project, boundary).Success?
    ensures DirectReport(project, boundary, roots).Success?
    ensures forall d :: d in DirectReport(project, boundary, roots).value ==> d in TransitiveReport(project, boundary).value
  {
    if roots != [] {
      DirectWithinTransitive(project, boundary, roots[..|roots| - 1]);
      var root := roots[|roots| - 1];
      var anyRange := Range(Position(0, 0), Position(0, 0));
      RootCounts(project, boundary, root, Edge(RuntimeEdge, [], anyRange, []), anyRange);
      var visit := Visit(root, TraversalNode(root, None));
      forall d | d in VisitReports(project, boundary, visit) ensures d in TransitiveReport(project, boundary).value {
        RootReported(project, boundary, root, d);
      }
    }
  }

  lemma RootReported(project: Project, boundary: Boundary, root: Text, d: Diagnostic)
    requires IsRoot(project, boundary, root) && TransitiveReport(project, boundary).Success?
    requires d in VisitReports(project, boundary, Visit(root, TraversalNode(root, None)))
    ensures d in TransitiveReport(project, boundary).value
  {
    if d in DeniedReports(project, boundary, root, [root], Edges(project, root)) {
      DeniedReportsShape(project, boundary, root, [root], Edges(project, root));
      RootCounts(project, boundary, root, d.edge, d.edge.range);
      RootReachable(project, boundary, root);
      TransitiveChains(project, boundary);
      RootViolationReported(project, boundary, root, d.edge, TransitiveReport(project, boundary).value);
    } else {
      RootDynamicReported(project, boundary, root, d);
    }
  }

  lemma RootDynamicReported(project: Project, boundary: Boundary, root: Text, d: Diagnostic)
    requires IsRoot(project, boundary, root) && TransitiveReport(project, boundary).Success?
    requires d in DynamicReports(boundary, root, Unsupported(project, root))
    ensures d in TransitiveReport(project, boundary).value
  {
    var anyEdge := Edge(RuntimeEdge, [], d.range, []);
    RootCounts(project, boundary, root, anyEdge, d.range);
    CountedOccurs(TransitiveReport(project, boundary).value, root, anyEdge, d.range);
    ReportsBoundary(project, boundary);
  }

  lemma RootViolationReported(project: Project, boundary: Boundary, root: Text, edge: Edge, report: seq<Diagnostic>)
    requires WalkTo(project, boundary, [root], root) && root in project.roles && edge.target in project.roles
    requires ViolationCount(report, root, edge) > 0
    requires forall d :: d in report && d.Violation? ==> ChainCorrect(project, boundary, d)
    ensures EdgeReport(project, boundary, root, [root] + [edge.target], edge) in report
  {
    CountedOccurs(report, root, edge, edge.range);
    var other :| other in report && other.Violation? && other.file == root && other.edge == edge;
    var path := other.chain[..|other.chain| - 1];
    assert Shortest(project, boundary, path, root);
    assert |path| == 1 && path[0] == root;
    assert other.chain == [root] + [edge.target];
  }

  lemma ReportsBoundary(project: Project, boundary: Boundary)
    ensures TransitiveReport(project, boundary).Success? ==>
      forall d :: d in TransitiveReport(project, boundary).value ==> d.boundary == boundary.id
  {
    var r := Explore(project, boundary, RootEntries(project, boundary), {});
    if r.Success? {
      ReportsOfBoundary(project, boundary, r.value);
    }
  }

  lemma {:induction false} ReportsOfBoundary(project: Project, boundary: Boundary, visits: seq<Visit>)
    requires forall v :: v in visits ==> v.root in project.roles
    ensures forall d :: d in Reports(project, boundary, visits) ==> d.boundary == boundary.id
  {
    if visits != [] {
      var v := visits[0];
      DeniedReportsShape(project, boundary, v.root, PathOf(v.node), Edges(project, v.node.file));
      ReportsOfBoundary(project, boundary, visits[1..]);
    }
  }
}
