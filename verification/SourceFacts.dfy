/**
 The read-once source cache (packages/compiler/src/source-fact-index.ts). Reading and extracting are
 parameters; a promise is the outcome it settles to.
 */
module SourceFacts {
  import opened Wrappers
  import opened Texts
  import opened Ranges
  import opened Sequences
  import opened ModuleImports

  datatype ModuleFact = ModuleFact(imports: seq<ImportFact>, unsupported: seq<Range>, syntaxErrors: seq<Text>)

  datatype InputFailure =
    | Unreadable(file: Text)
    | SyntaxInvalid(file: Text, message: Text)
    | ImportEscapesRoot(file: Text, specifier: Text)
    | ImportUnresolved(file: Text, specifier: Text)

  // `collect` is the extraction before the imports it finds are made unique.
  datatype Sources = Sources(read: Text -> Result<Text, InputFailure>, collect: (Text, Text) -> ModuleFact)

  function Extracted(sources: Sources, text: Text, file: Text): ModuleFact {
    var fact := sources.collect(text, file);
    fact.(imports := UniqueImports(fact.imports))
  }

  // What a direct read and extraction of a file gives, without any cache.
  function FactOf(sources: Sources, file: Text): Result<ModuleFact, InputFailure> {
    var text :- sources.read(file);
    var fact := Extracted(sources, text, file);
    if |fact.syntaxErrors| > 0 then Failure(SyntaxInvalid(file, fact.syntaxErrors[0])) else Success(fact)
  }

  class SourceFactIndex {
    const origin: Sources
    const readConcurrency: int
    var sources: map<Text, Result<Text, InputFailure>>
    var facts: map<Text, Result<ModuleFact, InputFailure>>
    // Every call of the read function so far, in order.
    ghost var readLog: seq<Text>

    ghost predicate Valid()
      reads this
    {
      && 1 <= readConcurrency <= 8
      && (forall f :: f in sources ==> sources[f] == origin.read(f))
      && (forall f :: f in facts ==> facts[f] == FactOf(origin, f))
      && Distinct(readLog) && Elements(readLog) == sources.Keys
    }

    constructor (origin: Sources, readConcurrency: int)
      requires 1 <= readConcurrency <= 8
      ensures Valid() && this.origin == origin && this.readConcurrency == readConcurrency
      ensures sources == map[] && facts == map[] && readLog == []
    {
      this.origin := origin;
      this.readConcurrency := readConcurrency;
      sources, facts, readLog := map[], map[], [];
    }

    method Source(file: Text) returns (r: Result<Text, InputFailure>)
      requires Valid()
      modifies this`sources, this`readLog
      ensures Valid() && r == origin.read(file)
      ensures sources.Keys == old(sources.Keys) + {file}
      ensures readLog == if file in old(sources) then old(readLog) else old(readLog) + [file]
    {
      if file !in sources {
        readLog := readLog + [file];
        sources := sources[file := origin.read(file)];
      }
      r := sources[file];
    }

    method Get(file: Text) returns (r: Result<ModuleFact, InputFailure>)
      requires Valid()
      modifies this
      ensures Valid() && r == FactOf(origin, file)
      ensures facts.Keys == old(facts.Keys) + {file}
      ensures readLog == if file in old(facts) || file in old(sources) then old(readLog) else old(readLog) + [file]
    {
      if file !in facts {
        var source := Source(file);
        var fact;
        match source {
          case Failure(error) => fact := Failure(error);
          case Success(text) =>
            var collected := origin.collect(text, file);
            var imports := CollectUniqueImports(collected.imports);
            var extracted := collected.(imports := imports);
            if |extracted.syntaxErrors| > 0 {
              fact := Failure(SyntaxInvalid(file, extracted.syntaxErrors[0]));
            } else {
              fact := Success(extracted);
            }
        }
        facts := facts[file := fact];
      }
      r := facts[file];
    }

    // The files a prefetch still has to read, each once, in request order.
    function Missing(files: seq<Text>): (missing: seq<Text>)
      reads this
      ensures forall f :: f in missing <==> f in files && f !in sources
    {
      var known := sources.Keys;
      Filter((f: Text) => f !in known, Deduplicate(files))
    }

    // One batch of concurrent reads, drained before the next.
    method ReadBatch(batch: seq<Text>)
      requires Valid() && Distinct(batch) && forall f :: f in batch ==> f !in sources
      modifies this`sources, this`readLog
      ensures Valid() && readLog == old(readLog) + batch
      ensures sources.Keys == old(sources.Keys) + Elements(batch)
    {
      for i := 0 to |batch|
        invariant Valid() && readLog == old(readLog) + batch[..i]
        invariant sources.Keys == old(sources.Keys) + Elements(batch[..i])
      {
        var file := batch[i];
        assert file !in batch[..i];
        assert batch[..i + 1] == batch[..i] + [file];
        assert file !in Elements(readLog);
        DistinctAppend(readLog, file);
        readLog := readLog + [file];
        sources := sources[file := origin.read(file)];
      }
      assert batch[..|batch|] == batch;
    }

    method Prefetch(files: seq<Text>)
      requires Valid()
      modifies this`sources, this`readLog
      ensures Valid()
      ensures readLog == if readConcurrency == 1 then old(readLog) else old(readLog) + old(Missing(files))
      ensures sources.Keys == if readConcurrency == 1 then old(sources.Keys) else old(sources.Keys) + Elements(files)
    {
      if readConcurrency == 1 {
        return;
      }
      var missing := Missing(files);
      MissingDistinct(files);
      var start := 0;
      ghost var done := 0;
      while start < |missing|
        invariant 0 <= done <= |missing| && done == Min(start, |missing|)
        invariant Valid() && readLog == old(readLog) + missing[..done]
        invariant sources.Keys == old(sources.Keys) + Elements(missing[..done])
      {
        var end := Min(start + readConcurrency, |missing|);
        SliceDistinct(missing, start, end);
        ReadBatch(missing[start..end]);
        ElementsSplit(missing, start, end);
        start, done := start + readConcurrency, end;
      }
      assert missing[..|missing|] == missing;
    }

    lemma MissingDistinct(files: seq<Text>)
      ensures Distinct(Missing(files))
    {
      var known := sources.Keys;
      FilterDistinct((f: Text) => f !in known, Deduplicate(files));
    }
  }

  function Min(a: int, b: int): int {
    if a < b then a else b
  }
}
