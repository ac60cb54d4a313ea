/**
 The bounded cache of contract locators (packages/compiler/src/locations.ts, contractLocatorFor). A JavaScript Map
 keeps its keys in insertion order, so deleting and setting a key again makes it the youngest.
 */
module LocatorCache {
  import opened Sequences
  import opened Texts
  import opened Positions

  const MAX_CACHED_LOCATORS: nat := 16

  datatype Locator<Tree> = Locator(lineStarts: seq<nat>, root: Tree, text: Text)

  function OtherThan(key: Text): Text -> bool {
    t => t != key
  }

  // The keys in order once a key is deleted.
  function Without(keys: seq<Text>, key: Text): seq<Text> {
    Filter(OtherThan(key), keys)
  }

  // Moving a key to the young end.
  function Refreshed(keys: seq<Text>, key: Text): seq<Text> {
    Without(keys, key) + [key]
  }

  function Youngest(keys: seq<Text>, n: nat): seq<Text> {
    if |keys| <= n then keys else keys[|keys| - n..]
  }

  lemma {:induction false} WithoutAbsent(keys: seq<Text>, key: Text)
    requires key !in keys
    ensures Without(keys, key) == keys
  {
    if keys != [] {
      var rest := keys[..|keys| - 1];
      assert keys == rest + [keys[|keys| - 1]];
      WithoutAbsent(rest, key);
    }
  }

  lemma {:induction false} WithoutPresent(keys: seq<Text>, key: Text)
    requires Distinct(keys) && key in keys
    ensures |Without(keys, key)| == |keys| - 1
  {
    var rest, last := keys[..|keys| - 1], keys[|keys| - 1];
    assert keys == rest + [last];
    if last == key {
      assert key !in rest;
      WithoutAbsent(rest, key);
    } else {
      WithoutPresent(rest, key);
    }
  }

  // The cache after a request, from the cache before it.
  function Requested(order: seq<Text>, key: Text, n: nat): seq<Text>
    requires 0 < n
  {
    if key in order then Without(order, key) + [key]
    else if |order| < n then order + [key]
    else (order + [key])[1..]
  }

  lemma TailIs(a: seq<Text>, b: seq<Text>, n: nat)
    requires |b| <= n && (a == [] || |b| == n)
    ensures Youngest(a + b, n) == b
  {
    if a == [] {
      assert a + b == b;
    } else {
      assert (a + b)[|a|..] == b;
    }
  }

  lemma AgainRequested(a: seq<Text>, b: seq<Text>, key: Text, n: nat)
    requires Distinct(a) && Distinct(b) && key !in a && key in b && |b| <= n && (a == [] || |b| == n)
    ensures Youngest(Refreshed(a + b, key), n) == Without(b, key) + [key]
  {
    FilterConcat(OtherThan(key), a, b);
    WithoutAbsent(a, key);
    WithoutPresent(b, key);
    assert Without(a + b, key) + [key] == a + (Without(b, key) + [key]);
    TailIs(a, Without(b, key) + [key], n);
  }

  lemma NewlyRequested(a: seq<Text>, b: seq<Text>, key: Text, n: nat)
    requires key !in b && |b| <= n && (a == [] || |b| == n) && 0 < n
    ensures Youngest(Refreshed(a + b, key), n) == if |b| < n then b + [key] else (b + [key])[1..]
  {
    FilterConcat(OtherThan(key), a, b);
    WithoutAbsent(b, key);
    var left := Without(a, key);
    if |b| < n {
      assert Without(a + b, key) + [key] == left + (b + [key]);
      TailIs(left, b + [key], n);
    } else {
      MoveHead(left, b, [key]);
      DropAppend(b, [key], 1);
      TailIs(left + [b[0]], (b + [key])[1..], n);
    }
  }

  lemma PartsDistinct(a: seq<Text>, b: seq<Text>)
    requires Distinct(a + b)
    ensures Distinct(a) && Distinct(b) && forall x :: x in b ==> x !in a
  {
    assert a == (a + b)[..|a|] && b == (a + b)[|a|..|a + b|];
    SliceDistinct(a + b, |a|, |a + b|);
    forall i, j | 0 <= i < j < |a| ensures a[i] != a[j] {
      assert (a + b)[i] != (a + b)[j];
    }
  }

  // Moving a key to the young end and keeping the youngest n needs only the youngest n.
  lemma YoungestStep(keys: seq<Text>, key: Text, n: nat)
    requires 0 < n && Distinct(keys)
    ensures Youngest(Refreshed(keys, key), n) == Requested(Youngest(keys, n), key, n)
  {
    var young := Youngest(keys, n);
    var aged := keys[..|keys| - |young|];
    assert keys == aged + young;
    if key in young {
      PartsDistinct(aged, young);
      AgainRequested(aged, young, key, n);
    } else {
      NewlyRequested(aged, young, key, n);
    }
  }

  lemma OldestDropped(order: seq<Text>, key: Text)
    requires Distinct(order) && order != [] && key !in order
    ensures forall t :: t in (order + [key])[1..] <==> t in order + [key] && t != order[0]
  {
    DropAppend(order, [key], 1);
    assert order == [order[0]] + order[1..];
  }

  lemma RequestedKeys(order: seq<Text>, key: Text, n: nat)
    requires 0 < n && Distinct(order)
    ensures Distinct(Requested(order, key, n))
    ensures forall t :: t in Requested(order, key, n) <==> t == key || (t in order && !Evicts(order, key, n, t))
  {
    if key in order {
      FilterDistinct(OtherThan(key), order);
      DistinctAppend(Without(order, key), key);
    } else {
      DistinctAppend(order, key);
      if |order| >= n {
        OldestDropped(order, key);
      }
    }
  }

  predicate Evicts(order: seq<Text>, key: Text, n: nat, t: Text) {
    key !in order && |order| >= n && order != [] && t == order[0]
  }

  lemma RefreshedDistinct(keys: seq<Text>, key: Text)
    requires Distinct(keys)
    ensures Distinct(Refreshed(keys, key))
  {
    FilterDistinct(OtherThan(key), keys);
    DistinctAppend(Without(keys, key), key);
  }

  class ContractLocators<Tree> {
    const parseTree: Text -> Tree
    var order: seq<Text>
    var cached: map<Text, Locator<Tree>>
    // Every text requested so far, the least recently requested first.
    ghost var recency: seq<Text>

    function Fresh(text: Text): Locator<Tree> {
      Locator(LineStarts(text, |text|), parseTree(text), text)
    }

    // The cache holds the most recently requested texts, in that order, each with its own locator.
    ghost predicate Valid()
      reads this
    {
      && Distinct(recency) && order == Youngest(recency, MAX_CACHED_LOCATORS) && Distinct(order)
      && (forall t :: t in cached <==> t in order)
      && (forall t :: t in cached ==> cached[t] == Fresh(t))
    }

    constructor (parseTree: Text -> Tree)
      ensures Valid() && recency == [] && this.parseTree == parseTree
    {
      this.parseTree := parseTree;
      order, cached, recency := [], map[], [];
    }

    method ContractLocatorFor(text: Text) returns (locator: Locator<Tree>)
      requires Valid()
      modifies this
      ensures Valid()
      ensures locator == Fresh(text)
      ensures recency == Refreshed(old(recency), text)
      ensures |order| <= MAX_CACHED_LOCATORS
    {
      if text in cached {
        locator := Reuse(text);
      } else {
        locator := Build(text);
      }
    }

    // The order after a request, which is that of the most recent texts again.
    lemma NextOrder(text: Text)
      requires Valid()
      ensures Distinct(Refreshed(recency, text)) && Distinct(Requested(order, text, MAX_CACHED_LOCATORS))
      ensures Requested(order, text, MAX_CACHED_LOCATORS) == Youngest(Refreshed(recency, text), MAX_CACHED_LOCATORS)
      ensures forall t :: t in Requested(order, text, MAX_CACHED_LOCATORS) <==>
        t == text || (t in order && !Evicts(order, text, MAX_CACHED_LOCATORS, t))
    {
      YoungestStep(recency, text, MAX_CACHED_LOCATORS);
      RefreshedDistinct(recency, text);
      RequestedKeys(order, text, MAX_CACHED_LOCATORS);
    }

    method Reuse(text: Text) returns (locator: Locator<Tree>)
      requires Valid() && text in cached
      modifies this
      ensures Valid() && locator == Fresh(text) && recency == Refreshed(old(recency), text) && |order| <= MAX_CACHED_LOCATORS
    {
      NextOrder(text);
      recency := Refreshed(recency, text);
      locator := cached[text];
      order := Without(order, text) + [text];
    }

    method Build(text: Text) returns (locator: Locator<Tree>)
      requires Valid() && text !in cached
      modifies this
      ensures Valid() && locator == Fresh(text) && recency == Refreshed(old(recency), text) && |order| <= MAX_CACHED_LOCATORS
    {
      NextOrder(text);
      var lineStarts := LineStartsFor(text);
      locator := Locator(lineStarts, parseTree(text), text);
      recency := Refreshed(recency, text);
      var (keys, entries) := Appended(order, cached, text, locator);
      order, cached := keys, entries;
    }

    // The new locator is the youngest entry; one too many, and the oldest is dropped.
    function Appended(order: seq<Text>, cached: map<Text, Locator<Tree>>, text: Text, locator: Locator<Tree>)
      : (r: (seq<Text>, map<Text, Locator<Tree>>))
      requires text !in order && |order| <= MAX_CACHED_LOCATORS
      requires forall t :: t in cached <==> t in order
      ensures r.0 == Requested(order, text, MAX_CACHED_LOCATORS)
      ensures forall t :: t in r.1 <==> t == text || (t in order && !Evicts(order, text, MAX_CACHED_LOCATORS, t))
      ensures forall t :: t in r.1 ==> r.1[t] == if t == text then locator else cached[t]
    {
      var all, added := order + [text], cached[text := locator];
      if |all| > MAX_CACHED_LOCATORS then (all[1..], added - {all[0]}) else (all, added)
    }
  }
}
