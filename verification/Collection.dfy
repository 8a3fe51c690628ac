/**
 Materialization of optimized modules: each expected module gets a new artifact ID, its text is
 indexed, and the results join the source artifacts that the compiler manifest declared.
 */
module Collection {
  import opened Base
  import opened Records
  import opened Manifests
  import Lexis
  import IndexRecords
  import Grammar
  import Streams
  import Indexer
  import Ranges

  /**
   A regular codegen unit: its name, its bitcode's length if that is a regular file, and the text
   that its disassembly delivers, if that succeeds.
   */
  datatype Expected = Expected(name: Name, bitcodeLen: Option<nat>, disassembles: bool, text: Lexis.Source)

  /** The compiler's own llvm-dis, and the version it reports. */
  datatype Disassembler = Absent | Present(version: Option<Name>)

  datatype Failure =
    | ConflictingMetadata | UnsupportedLto | NoDisassembler | OtherVersion | NoSpaceForIds
    | NoBitcode | EmptyBitcode | DisassemblyFailed | IndexFailed(error: Lexis.Error) | Invalid(field: InvalidField)

  datatype Materialized = Materialized(modules: seq<LlvmModuleRecord>, artifacts: seq<ArtifactRecord>)

  function StageOf(lto: LlvmLto): Option<LlvmStage> {
    match lto
    case Off => Some(NoLtoOptimized)
    case LocalThin => Some(LocalThinLtoPostPassManager)
    case _ => None
  }

  /** One more than the highest source ID, or zero without sources. */
  function NextId(sources: seq<ArtifactRecord>): (next: nat)
    ensures forall a :: a in sources ==> a.id < next
    ensures next == 0 || exists a :: a in sources && a.id + 1 == next
  {
    if sources == [] then 0
    else
      var last := sources[|sources| - 1];
      var rest := NextId(sources[..|sources| - 1]);
      assert sources == sources[..|sources| - 1] + [last];
      assert last in sources;
      if rest <= last.id then last.id + 1 else rest
  }

  method FirstId(sources: seq<ArtifactRecord>) returns (r: Result<nat, Failure>)
    ensures r == if NextId(sources) > U64_MAX then Err(NoSpaceForIds) else Ok(NextId(sources))
  {
    var highest: Option<nat> := None;
    for i := 0 to |sources|
      invariant NextId(sources[..i]) == if highest.None? then 0 else highest.value + 1
    {
      assert sources[..i + 1][..i] == sources[..i];
      if highest.None? || highest.value < sources[i].id {
        highest := Some(sources[i].id);
      }
    }
    assert sources[..|sources|] == sources;
    if highest.None? {
      return Ok(0);
    }
    r := if highest.value + 1 > U64_MAX then Err(NoSpaceForIds) else Ok(highest.value + 1);
  }

  /** The n-th module has the n-th new ID, its own index, and an artifact of its text's length. */
  ghost predicate Joined(e: Expected, mod: LlvmModuleRecord, artifact: ArtifactRecord, id: nat) {
    && mod.artifact == id
    && mod.compilerModule == e.name
    && Grammar.Index(e.text) == Ok(mod.definitions)
    && artifact == ArtifactRecord(id, LlvmText, |e.text.bytes|)
  }

  ghost predicate Corresponds(expected: seq<Expected>, sources: seq<ArtifactRecord>, m: Materialized,
                              added: seq<ArtifactRecord>) {
    && |m.modules| == |added| <= |expected|
    && m.artifacts == sources + added
    && forall k :: 0 <= k < |added| ==> Joined(expected[k], m.modules[k], added[k], NextId(sources) + k)
  }

  /** Nonempty bitcode whose disassembly is indexed without a repeated symbol. */
  ghost predicate Acceptable(e: Expected) {
    && e.bitcodeLen.Some? && e.bitcodeLen.value > 0
    && e.disassembles
    && e.name != []
    && Grammar.Index(e.text).Ok?
    && Distinct(Symbols(Grammar.Index(e.text).value))
  }

  predicate Collectable(p: LlvmProvenance) {
    p.backend == Text("llvm") && !p.incremental && !p.linkerPluginLto && StageOf(p.lto).Some?
  }

  method MaterializeOne(e: Expected, id: nat, stage: LlvmStage) returns (r: Result<LlvmModuleRecord, Failure>)
    ensures r.Ok? <==> Acceptable(e)
    ensures r.Ok? ==> r.value.stage == stage && Joined(e, r.value, ArtifactRecord(id, LlvmText, |e.text.bytes|), id)
  {
    if e.bitcodeLen.None? {
      return Err(NoBitcode);
    }
    if e.bitcodeLen.value == 0 {
      return Err(EmptyBitcode);
    }
    if !e.disassembles {
      return Err(DisassemblyFailed);
    }
    var reader := new Streams.Reader(e.text.bytes, e.text.ending, 0);
    var definitions := Indexer.Index(reader);
    hide Grammar.Index;
    if definitions.Err? {
      return Err(IndexFailed(definitions.error));
    }
    var made := NewModule(id, e.name, stage, definitions.value);
    r := if made.Err? then Err(Invalid(made.error)) else Ok(made.value);
  }

  lemma OneMoreCorresponds(expected: seq<Expected>, sources: seq<ArtifactRecord>, m: Materialized,
                           added: seq<ArtifactRecord>, mod: LlvmModuleRecord, artifact: ArtifactRecord)
    requires Corresponds(expected, sources, m, added) && |added| < |expected|
    requires Joined(expected[|added|], mod, artifact, NextId(sources) + |added|)
    ensures var more := Materialized(m.modules + [mod], m.artifacts + [artifact]);
            Corresponds(expected, sources, more, added + [artifact])
  {
    hide Joined, NextId;
    assert (sources + added) + [artifact] == sources + (added + [artifact]);
  }

  /** The configuration is supported, llvm-dis fits the compiler, and every module gets an ID and is acceptable. */
  ghost predicate Materializes(expected: seq<Expected>, provenance: LlvmProvenance, disassembler: Disassembler,
                               sources: seq<ArtifactRecord>) {
    && Collectable(provenance)
    && disassembler == Present(provenance.llvmVersion)
    && NextId(sources) + |expected| <= U64_MAX
    && forall e :: e in expected ==> Acceptable(e)
  }

  /** Collects every expected module, exactly when each of them can be collected. */
  method Materialize(expected: seq<Expected>, provenance: LlvmProvenance, disassembler: Disassembler,
                     sources: seq<ArtifactRecord>)
    returns (r: Result<Materialized, Failure>, ghost added: seq<ArtifactRecord>)
    ensures r.Ok? <==> Materializes(expected, provenance, disassembler, sources)
    ensures r.Ok? ==>
              && |added| == |expected| && Corresponds(expected, sources, r.value, added)
              && forall m :: m in r.value.modules ==> StageOf(provenance.lto) == Some(m.stage)
  {
    hide Acceptable, Joined, NextId;
    added := [];
    if provenance.backend != Text("llvm") || provenance.incremental || provenance.linkerPluginLto {
      return Err(ConflictingMetadata), added;
    }
    var stage := StageOf(provenance.lto);
    if stage.None? {
      return Err(UnsupportedLto), added;
    }
    if disassembler.Absent? {
      return Err(NoDisassembler), added;
    }
    if disassembler.version != provenance.llvmVersion {
      return Err(OtherVersion), added;
    }
    var start := FirstId(sources);
    if start.Err? {
      return Err(start.error), added;
    }
    var nextId := start.value;
    var modules, artifacts := [], sources;
    assert sources + added == artifacts;
    assert Corresponds(expected, sources, Materialized(modules, artifacts), added);
    hide Corresponds;
    for i := 0 to |expected|
      invariant nextId == NextId(sources) + i <= U64_MAX && |added| == |modules| == i
      invariant Corresponds(expected, sources, Materialized(modules, artifacts), added)
      invariant forall m :: m in modules ==> m.stage == stage.value
      invariant forall k :: 0 <= k < i ==> Acceptable(expected[k])
    {
      var id := nextId;
      if nextId == U64_MAX {
        return Err(NoSpaceForIds), added;
      }
      nextId := nextId + 1;
      var made := MaterializeOne(expected[i], id, stage.value);
      if made.Err? {
        assert expected[i] in expected;
        return Err(made.error), added;
      }
      var artifact := ArtifactRecord(id, LlvmText, |expected[i].text.bytes|);
      OneMoreCorresponds(expected, sources, Materialized(modules, artifacts), added, made.value, artifact);
      modules, artifacts, added := modules + [made.value], artifacts + [artifact], added + [artifact];
    }
    r := Ok(Materialized(modules, artifacts));
  }

  // ---- What manifest construction then finds ----

  lemma RangesFitText(text: Lexis.Source, d: IndexRecords.Definition)
    requires Grammar.Index(text).Ok? && d in Grammar.Index(text).value
    ensures d.End() <= |text.bytes|
  {
    Ranges.IndexRanges(text);
  }

  lemma ModulesFit(expected: seq<Expected>, sources: seq<ArtifactRecord>, m: Materialized, added: seq<ArtifactRecord>,
                   lto: LlvmLto, k: nat)
    requires Corresponds(expected, sources, m, added) && k < |added|
    requires StageOf(lto) == Some(m.modules[k].stage)
    ensures ModuleFits(m.modules[k], m.artifacts, lto)
  {
    hide Grammar.Index, NextId;
    assert Joined(expected[k], m.modules[k], added[k], NextId(sources) + k);
    assert added[k] in m.artifacts;
    forall d | d in m.modules[k].definitions ensures Declares(m.artifacts, added[k].id, LlvmText, d.End()) {
      RangesFitText(expected[k].text, d);
    }
  }

  /** The new artifacts hold LLVM text under the IDs that follow the sources'. */
  lemma AddedArtifacts(expected: seq<Expected>, sources: seq<ArtifactRecord>, m: Materialized,
                       added: seq<ArtifactRecord>)
    requires Corresponds(expected, sources, m, added)
    ensures forall k :: 0 <= k < |added| ==>
              added[k].kind.LlvmText? && added[k].id == NextId(sources) + k == m.modules[k].artifact
    ensures |added| == |expected| ==> Names(m.modules) == ExpectedNames(expected)
    ensures |m.modules| == |added| && m.artifacts == sources + added
  {
    hide Grammar.Index, NextId;
    forall k | 0 <= k < |added|
      ensures added[k].kind.LlvmText? && added[k].id == NextId(sources) + k == m.modules[k].artifact
      ensures m.modules[k].compilerModule == expected[k].name
    {
      assert Joined(expected[k], m.modules[k], added[k], NextId(sources) + k);
    }
  }

  /** Only source artifacts declare source text, before and after materialization. */
  lemma SourcesStayDeclared(i: InstanceRecord, sources: seq<ArtifactRecord>, added: seq<ArtifactRecord>)
    requires forall k :: 0 <= k < |added| ==> added[k].kind.LlvmText?
    ensures SourceDeclared(i, sources + added) <==> SourceDeclared(i, sources)
  {
    assert forall a :: a in sources ==> a in sources + added;
  }

  lemma NoOrphans(sources: seq<ArtifactRecord>, added: seq<ArtifactRecord>, modules: seq<LlvmModuleRecord>)
    requires forall a :: a in sources ==> a.kind.SourceText?
    requires |modules| == |added| && forall k :: 0 <= k < |added| ==> modules[k].artifact == added[k].id
    ensures forall a :: a in sources + added && a.kind.LlvmText? ==> a.id in Artifacts(modules)
  {
    forall a | a in sources + added && a.kind.LlvmText? ensures a.id in Artifacts(modules) {
      var k :| 0 <= k < |added| && added[k] == a;
      assert Artifacts(modules)[k] == a.id;
    }
  }

  lemma IdsStayDistinct(sources: seq<ArtifactRecord>, added: seq<ArtifactRecord>)
    requires Distinct(Ids(sources))
    requires forall k :: 0 <= k < |added| ==> added[k].id == NextId(sources) + k
    ensures Distinct(Ids(sources + added))
  {
    var all := sources + added;
    forall j, k | 0 <= j < k < |all| ensures Ids(all)[j] != Ids(all)[k] {
      if k < |sources| {
        assert Ids(sources)[j] != Ids(sources)[k];
      } else if j < |sources| {
        assert sources[j] in sources;
      }
    }
  }

  function ExpectedNames(expected: seq<Expected>): seq<Name> {
    seq(|expected|, i requires 0 <= i < |expected| => expected[i].name)
  }

  /** The LLVM joins hold exactly when every placement's codegen unit was expected. */
  lemma MaterializedLlvmIsValid(expected: seq<Expected>, sources: seq<ArtifactRecord>, m: Materialized,
                                added: seq<ArtifactRecord>, p: LlvmProvenance, instances: seq<InstanceRecord>)
    requires |added| == |expected| && Corresponds(expected, sources, m, added)
    requires forall a :: a in sources ==> a.kind.SourceText?
    requires Distinct(ExpectedNames(expected))
    requires Supports(p) && forall k :: k in m.modules ==> StageOf(p.lto) == Some(k.stage)
    ensures ValidLlvm(instances, m.artifacts, p, Collected(m.modules))
       <==> forall i :: i in instances ==> PlacementsCovered(i, ExpectedNames(expected))
  {
    AddedArtifacts(expected, sources, m, added);
    hide Corresponds, ModuleFits, PlacementsCovered, NextId, Supports, ExpectedNames;
    NoOrphans(sources, added, m.modules);
    assert Distinct(Artifacts(m.modules));
    forall k | k in m.modules ensures ModuleFits(k, m.artifacts, p.lto) {
      var n :| 0 <= n < |m.modules| && m.modules[n] == k;
      ModulesFit(expected, sources, m, added, p.lto, n);
    }
  }

  /**
   After materialization only the compiler's own joins are left for manifest construction to check.
   Every ID, range, stage and orphan check passes.
   */
  lemma MaterializedManifestIsValid(expected: seq<Expected>, sources: seq<ArtifactRecord>, m: Materialized,
                                    added: seq<ArtifactRecord>, p: LlvmProvenance, instances: seq<InstanceRecord>)
    requires |added| == |expected| && Corresponds(expected, sources, m, added)
    requires Distinct(Ids(sources)) && forall a :: a in sources ==> a.kind.SourceText?
    requires Distinct(ExpectedNames(expected))
    requires Supports(p) && forall k :: k in m.modules ==> StageOf(p.lto) == Some(k.stage)
    ensures Valid(instances, m.artifacts, p, Collected(m.modules)) <==>
              && Distinct(Identities(instances))
              && (forall i :: i in instances ==> SourceDeclared(i, sources))
              && (forall i :: i in instances ==> PlacementsCovered(i, ExpectedNames(expected)))
  {
    AddedArtifacts(expected, sources, m, added);
    hide Corresponds, SourceDeclared, PlacementsCovered, NextId, ValidLlvm, Supports, ExpectedNames;
    IdsStayDistinct(sources, added);
    MaterializedLlvmIsValid(expected, sources, m, added, p, instances);
    forall i | i in instances ensures SourceDeclared(i, m.artifacts) <==> SourceDeclared(i, sources) {
      SourcesStayDeclared(i, sources, added);
    }
  }
}
