/**
 From the driver's manifest bytes to a capture's manifest: decoding, collection of the optimized
 modules, and construction. Which byte strings get through is stated by the records they hold.
 */
module Assembly {
  import opened Base
  import opened Records
  import opened Manifests
  import opened Protocol
  import Codec
  import Collection
  import Decoder
  import Grammar
  import Groups
  import Paths
  import Lexis
  import Sorting
  import Wire

  /** The compiler's own reports: its LLVM version, and its llvm-dis. */
  datatype Tools = Tools(llvmVersion: Option<Name>, disassembler: Collection.Disassembler)

  datatype Bitcode = Bitcode(length: nat, disassembles: bool, text: Lexis.Source)

  /** The attempt's regular files: source snapshots by artifact ID, and bitcode by path. */
  datatype Files = Files(sources: map<nat, nat>, bitcode: map<Name, Bitcode>)

  datatype Failure =
    | Undecodable(error: Wire.Failure) | NoVersion | InvalidRecord(field: InvalidField) | SourceLength
    | NotMaterialized(cause: Collection.Failure)

  datatype CollectedEvidence = CollectedEvidence(
    instances: seq<InstanceRecord>,
    artifacts: seq<ArtifactRecord>,
    provenance: LlvmProvenance,
    llvm: LlvmCollection)

  // ---- Collection ----

  /** The compiler's version counts for the LLVM backend only. */
  function VersionFor(c: Configuration, tools: Tools): Option<Name> {
    if c.backend == Text("llvm") then tools.llvmVersion else None
  }

  function ProvenanceOf(c: Configuration, tools: Tools): LlvmProvenance {
    LlvmProvenance(c.backend, VersionFor(c, tools), c.target, c.optimization, c.lto, c.incremental, c.linkerPlugin,
      c.codegenUnits, LLVM_RECIPE_REVISION)
  }

  function ExpectedOf(m: Decoder.ExpectedModule, files: Files): Collection.Expected {
    if m.path !in files.bitcode then Collection.Expected(m.name, None, false, Lexis.Source([], Lexis.Eof))
    else
      var found := files.bitcode[m.path];
      Collection.Expected(m.name, Some(found.length), found.disassembles, found.text)
  }

  function ExpectedModules(ms: seq<Decoder.ExpectedModule>, files: Files): (r: seq<Collection.Expected>)
    ensures |r| == |ms| && forall i :: 0 <= i < |ms| ==> r[i] == ExpectedOf(ms[i], files)
  {
    seq(|ms|, i requires 0 <= i < |ms| => ExpectedOf(ms[i], files))
  }

  predicate HasLength(files: Files, a: ArtifactRecord) {
    a.id in files.sources && files.sources[a.id] == a.byteLen
  }

  /** The compiler and the files supply what a configuration, its snapshots and its modules need. */
  ghost predicate Supplied(c: Configuration, artifacts: seq<ArtifactRecord>, ms: seq<Decoder.ExpectedModule>,
                           tools: Tools, files: Files) {
    && (c.backend == Text("llvm") ==> tools.llvmVersion.Some? && tools.llvmVersion != Some([]))
    && c.backend != [] && c.target != [] && c.codegenUnits != 0
    && c.optimization in {Text("0"), Text("1"), Text("2"), Text("3"), Text("s"), Text("z")}
    && (forall a :: a in artifacts ==> a.id in files.sources && files.sources[a.id] == a.byteLen)
    && (c.unsupported.None? ==>
          && c.backend == Text("llvm") && !c.incremental && !c.linkerPlugin && (c.lto.Off? || c.lto.LocalThin?)
          && tools.disassembler == Collection.Present(tools.llvmVersion)
          && Collection.NextId(artifacts) + |ms| <= U64_MAX
          && forall m :: m in ms ==> m.name != [] && m.path in files.bitcode && Disassembles(files.bitcode[m.path]))
  }

  /** Nonempty bitcode whose disassembly can be indexed, without a symbol twice. */
  ghost predicate Disassembles(b: Bitcode) {
    && b.length > 0 && b.disassembles && Grammar.Index(b.text).Ok?
    && forall i, j :: 0 <= i < j < |Grammar.Index(b.text).value| ==>
                        Grammar.Index(b.text).value[i].symbol != Grammar.Index(b.text).value[j].symbol
  }

  /** One module's record and artifact: the index and the length of the text at its path. */
  ghost predicate IsModule(m: Decoder.ExpectedModule, files: Files, id: nat, lto: LlvmLto, record: LlvmModuleRecord,
                           artifact: ArtifactRecord) {
    && m.path in files.bitcode
    && Grammar.Index(files.bitcode[m.path].text) == Ok(record.definitions)
    && record.artifact == id && record.compilerModule == m.name
    && ((lto.Off? && record.stage.NoLtoOptimized?) || (lto.LocalThin? && record.stage.LocalThinLtoPostPassManager?))
    && artifact == ArtifactRecord(id, LlvmText, |files.bitcode[m.path].text.bytes|)
  }

  /** A supported configuration's modules are collected under the IDs after the sources'; another keeps its reason. */
  ghost predicate LlvmOf(c: Configuration, ms: seq<Decoder.ExpectedModule>, files: Files,
                         sources: seq<ArtifactRecord>, artifacts: seq<ArtifactRecord>, llvm: LlvmCollection) {
    match c.unsupported
    case Some(reason) => llvm == NotCaptured(reason) && artifacts == sources
    case None =>
      && llvm.Collected? && |llvm.modules| == |ms|
      && sources <= artifacts && |artifacts| == |sources| + |ms|
      && forall k :: 0 <= k < |ms| ==>
           IsModule(ms[k], files, Collection.NextId(sources) + k, c.lto, llvm.modules[k], artifacts[|sources| + k])
  }

  /** The configuration with the compiler's version, which counts for the LLVM backend only. */
  ghost predicate IsProvenance(p: LlvmProvenance, c: Configuration, tools: Tools) {
    && p.backend == c.backend && p.llvmVersion == (if c.backend == Text("llvm") then tools.llvmVersion else None)
    && p.target == c.target && p.optimization == c.optimization && p.lto == c.lto
    && p.incremental == c.incremental && p.linkerPluginLto == c.linkerPlugin
    && p.codegenUnits == c.codegenUnits && p.recipeRevision == 1
  }

  lemma AcceptableIs(m: Decoder.ExpectedModule, files: Files)
    ensures Collection.Acceptable(ExpectedOf(m, files)) <==>
              m.name != [] && m.path in files.bitcode && Disassembles(files.bitcode[m.path])
  {
    hide Grammar.Index;
  }

  lemma SuppliedIs(c: Configuration, artifacts: seq<ArtifactRecord>, ms: seq<Decoder.ExpectedModule>, tools: Tools,
                   files: Files)
    ensures var p := ProvenanceOf(c, tools);
            Supplied(c, artifacts, ms, tools, files) <==>
              && (c.backend == Text("llvm") ==> tools.llvmVersion.Some?)
              && ValidProvenance(p) && (forall a :: a in artifacts ==> HasLength(files, a))
              && (c.unsupported.None? ==>
                    Collection.Materializes(ExpectedModules(ms, files), p, tools.disassembler, artifacts))
  {
    hide Collection.Acceptable, Disassembles, Collection.NextId, ExpectedOf;
    var expected := ExpectedModules(ms, files);
    forall k | 0 <= k < |ms|
      ensures Collection.Acceptable(expected[k]) <==>
                ms[k].name != [] && ms[k].path in files.bitcode && Disassembles(files.bitcode[ms[k].path])
    {
      AcceptableIs(ms[k], files);
    }
    forall e | e in expected ensures exists k :: 0 <= k < |ms| && e == expected[k] {
    }
  }

  lemma JoinedIs(m: Decoder.ExpectedModule, files: Files, id: nat, lto: LlvmLto, record: LlvmModuleRecord,
                 artifact: ArtifactRecord)
    requires m.path in files.bitcode
    ensures Collection.Joined(ExpectedOf(m, files), record, artifact, id)
            && Collection.StageOf(lto) == Some(record.stage)
       <==> IsModule(m, files, id, lto, record, artifact)
  {
    hide Grammar.Index;
  }

  /** What materialization makes of the modules that the files hold. */
  lemma CorrespondingIs(c: Configuration, ms: seq<Decoder.ExpectedModule>, files: Files, sources: seq<ArtifactRecord>,
                        artifacts: seq<ArtifactRecord>, modules: seq<LlvmModuleRecord>, added: seq<ArtifactRecord>)
    requires c.unsupported.None? && |added| == |modules| == |ms| && artifacts == sources + added
    requires forall m :: m in ms ==> m.path in files.bitcode
    ensures Corresponding(c, ms, files, sources, artifacts, modules, added)
       <==> LlvmOf(c, ms, files, sources, artifacts, Collected(modules))
  {
    hide Grammar.Index, Collection.NextId, Collection.Joined, IsModule, Collection.StageOf, ExpectedOf;
    var next := Collection.NextId(sources);
    forall k | 0 <= k < |ms|
      ensures Collection.Joined(ExpectedOf(ms[k], files), modules[k], added[k], next + k)
              && Collection.StageOf(c.lto) == Some(modules[k].stage)
         <==> IsModule(ms[k], files, next + k, c.lto, modules[k], artifacts[|sources| + k])
    {
      assert ms[k] in ms;
      JoinedIs(ms[k], files, next + k, c.lto, modules[k], added[k]);
    }
    forall m | m in modules ensures exists k :: 0 <= k < |ms| && m == modules[k] {
    }
  }

  ghost predicate Corresponding(c: Configuration, ms: seq<Decoder.ExpectedModule>, files: Files,
                                sources: seq<ArtifactRecord>, artifacts: seq<ArtifactRecord>,
                                modules: seq<LlvmModuleRecord>, added: seq<ArtifactRecord>) {
    && Collection.Corresponds(ExpectedModules(ms, files), sources, Collection.Materialized(modules, artifacts), added)
    && forall m :: m in modules ==> Collection.StageOf(c.lto) == Some(m.stage)
  }

  lemma PathsAreThere(c: Configuration, artifacts: seq<ArtifactRecord>, ms: seq<Decoder.ExpectedModule>, tools: Tools,
                      files: Files)
    requires Supplied(c, artifacts, ms, tools, files) && c.unsupported.None?
    ensures forall m :: m in ms ==> m.path in files.bitcode
    ensures Supports(ProvenanceOf(c, tools))
  {
    hide Disassembles;
  }

  /** Checks the snapshots' lengths and collects the modules of a supported configuration. */
  method Collect(m: Decoder.CompilerManifest, tools: Tools, files: Files)
    returns (r: Result<CollectedEvidence, Failure>)
    ensures r.Ok? <==> Supplied(m.configuration, m.artifacts, m.modules, tools, files)
    ensures r.Ok? ==>
              && r.value.instances == m.instances
              && IsProvenance(r.value.provenance, m.configuration, tools)
              && LlvmOf(m.configuration, m.modules, files, m.artifacts, r.value.artifacts, r.value.llvm)
  {
    hide Collection.Materializes, Collection.Corresponds, ValidProvenance, Supplied, IsModule, Collection.StageOf,
      Collection.NextId;
    var c := m.configuration;
    SuppliedIs(c, m.artifacts, m.modules, tools, files);
    if c.backend == Text("llvm") && tools.llvmVersion.None? {
      return Err(NoVersion);
    }
    var made := NewProvenance(ProvenanceOf(c, tools));
    if made.Err? {
      return Err(InvalidRecord(made.error));
    }
    var artifacts := m.artifacts;
    for i := 0 to |artifacts|
      invariant forall k :: 0 <= k < i ==> HasLength(files, artifacts[k])
    {
      if !HasLength(files, artifacts[i]) {
        assert artifacts[i] in artifacts;
        return Err(SourceLength);
      }
    }
    if c.unsupported.Some? {
      return Ok(CollectedEvidence(m.instances, artifacts, made.value, NotCaptured(c.unsupported.value)));
    }
    var expected := ExpectedModules(m.modules, files);
    var got, added := Collection.Materialize(expected, made.value, tools.disassembler, artifacts);
    if got.Err? {
      return Err(NotMaterialized(got.error));
    }
    PathsAreThere(c, m.artifacts, m.modules, tools, files);
    Collection.AddedArtifacts(expected, m.artifacts, got.value, added);
    CorrespondingIs(c, m.modules, files, m.artifacts, got.value.artifacts, got.value.modules, added);
    r := Ok(CollectedEvidence(m.instances, got.value.artifacts, made.value, Collected(got.value.modules)));
  }

  // ---- The joins that are left to check ----

  /** What collection cannot supply: declared sources, and a module for each codegen unit. */
  ghost predicate Joins(m: Decoder.CompilerManifest) {
    && (forall i :: i in m.instances ==> SourceDeclared(i, m.artifacts))
    && (m.configuration.unsupported.None? ==>
          forall i :: i in m.instances ==> PlacementsCovered(i, ModuleNames(m.modules)))
  }

  function ModuleNames(ms: seq<Decoder.ExpectedModule>): (r: seq<Name>)
    ensures |r| == |ms| && forall i :: 0 <= i < |ms| ==> r[i] == ms[i].name
  {
    seq(|ms|, i requires 0 <= i < |ms| => ms[i].name)
  }

  lemma ExpectedKeepNames(ms: seq<Decoder.ExpectedModule>, files: Files)
    ensures Collection.ExpectedNames(ExpectedModules(ms, files)) == ModuleNames(ms)
  {
  }

  /** A decoded manifest's collected evidence makes a valid manifest exactly when its joins hold. */
  lemma EvidenceIsValid(bytes: seq<byte>, marker: Name, directory: Paths.Path, m: Decoder.CompilerManifest,
                        tools: Tools, files: Files, artifacts: seq<ArtifactRecord>, llvm: LlvmCollection)
    requires Decoder.Decodes(bytes, marker, directory, Ok(m))
    requires Supplied(m.configuration, m.artifacts, m.modules, tools, files)
    requires LlvmOf(m.configuration, m.modules, files, m.artifacts, artifacts, llvm)
    ensures Valid(m.instances, artifacts, ProvenanceOf(m.configuration, tools), llvm) <==> Joins(m)
  {
    hide Decoder.Decodes, Collection.Corresponds, PlacementsCovered, SourceDeclared, Collection.Acceptable, Supplied,
      IsModule, Collection.NextId, Collection.StageOf;
    Groups.DecodedManifestIsCollectable(bytes, marker, directory, m);
    var expected := ExpectedModules(m.modules, files);
    ExpectedKeepNames(m.modules, files);
    if m.configuration.unsupported.None? {
      var added := artifacts[|m.artifacts|..];
      PathsAreThere(m.configuration, m.artifacts, m.modules, tools, files);
      CorrespondingIs(m.configuration, m.modules, files, m.artifacts, artifacts, llvm.modules, added);
      Collection.MaterializedManifestIsValid(
        expected, m.artifacts, Collection.Materialized(llvm.modules, artifacts), added,
        ProvenanceOf(m.configuration, tools), m.instances);
    }
  }

  // ---- In terms of the records ----

  function ConfigurationIn(bytes: seq<byte>, marker: Name): Configuration
    requires Codec.ReadStream(bytes, marker).Ok?
  {
    Codec.ReadStream(bytes, marker).value.0
  }

  function EntriesIn(bytes: seq<byte>, marker: Name): seq<Entry>
    requires Codec.ReadStream(bytes, marker).Ok?
  {
    Codec.ReadStream(bytes, marker).value.1
  }

  ghost predicate AllAcceptable(c: Configuration, directory: Paths.Path, es: seq<Entry>) {
    Groups.Acceptable(c, directory, es, |es|) && InstancesValid(es)
  }

  /** A well-formed stream of acceptable records that make valid instances. */
  ghost predicate Decodable(bytes: seq<byte>, marker: Name, directory: Paths.Path) {
    && Codec.ReadStream(bytes, marker).Ok?
    && AllAcceptable(ConfigurationIn(bytes, marker), directory, EntriesIn(bytes, marker))
  }

  /** Every instance that the records name passes its constructors. */
  ghost predicate InstancesValid(es: seq<Entry>) {
    forall k :: var rs := Groups.RecordsOf(es, |es|, k);
                rs != [] ==> Decoder.ValidKey(k, Decoder.Group(Groups.Placements(rs), rs[0].1))
  }

  /** A record's source lies in a snapshot that the stream declares. */
  ghost predicate SourceStands(s: SourceAvailability, artifacts: seq<ArtifactRecord>) {
    s.Available? ==> Declares(artifacts, s.source.artifact, SourceText, s.source.range.End())
  }

  /** Each placement's source is declared, and its codegen unit is a module unless there are none. */
  ghost predicate RecordsJoin(c: Configuration, es: seq<Entry>) {
    forall e :: e in es && e.Placement? ==>
      && SourceStands(e.source, Groups.ArtifactsOf(es, |es|))
      && (c.unsupported.None? ==> e.placement.codegenUnit in ModuleNames(Groups.ModulesOf(es, |es|)))
  }

  lemma {:induction false} AssembledExactly(keys: seq<Key>, groups: map<Key, Decoder.Group>, n: nat)
    requires n <= |keys| && forall k :: k in keys ==> k in groups
    ensures Decoder.Assembled(keys, groups, n).Ok? <==>
              forall i :: 0 <= i < n ==> Decoder.ValidKey(keys[i], groups[keys[i]])
  {
    hide Decoder.ValidKey;
    if n > 0 {
      AssembledExactly(keys, groups, n - 1);
    }
  }

  lemma InstancesAreValid(es: seq<Entry>, t: Decoder.Table, keys: seq<Key>)
    requires Groups.Represents(t, es, |es|) && Decoder.InOrder(keys, t.groups)
    ensures Decoder.Assembled(keys, t.groups, |keys|).Ok? <==> InstancesValid(es)
  {
    hide Decoder.ValidKey, Groups.Placements;
    AssembledExactly(keys, t.groups, |keys|);
    forall k ensures Groups.Holds(t.groups, k, Groups.RecordsOf(es, |es|, k)) && (k in keys <==> k in t.groups) {
    }
    if InstancesValid(es) {
      forall i | 0 <= i < |keys| ensures Decoder.ValidKey(keys[i], t.groups[keys[i]]) {
        assert keys[i] in keys;
      }
    }
  }

  /** A manifest's configuration, snapshots and modules are those of the records. */
  ghost predicate Projects(m: Decoder.CompilerManifest, c: Configuration, es: seq<Entry>) {
    && m.configuration == c
    && m.artifacts == Groups.ArtifactsOf(es, |es|) && m.modules == Groups.ModulesOf(es, |es|)
  }

  /**
   Decoding succeeds exactly on well-formed streams of acceptable records that make valid instances,
   and then keeps their configuration, snapshots and modules.
   */
  lemma DecodesExactly(bytes: seq<byte>, marker: Name, directory: Paths.Path,
                       r: Result<Decoder.CompilerManifest, Wire.Failure>)
    requires Decoder.Decodes(bytes, marker, directory, r)
    ensures r.Ok? <==> Decodable(bytes, marker, directory)
    ensures r.Ok? ==> Projects(r.value, ConfigurationIn(bytes, marker), EntriesIn(bytes, marker))
  {
    hide Codec.ReadStream, Decoder.Accumulated, Groups.Acceptable, Groups.GroupsHold, Decoder.InOrder,
      Decoder.Assembled, InstancesValid;
    Groups.AccumulatedIsProjection(bytes, marker, directory);
    if Decoder.Accumulated(bytes, marker, directory).Ok? {
      var (c, es) := Codec.ReadStream(bytes, marker).value;
      var t := Decoder.Accumulated(bytes, marker, directory).value.1;
      var keys :| Decoder.Completes(keys, c, t, r);
      InstancesAreValid(es, t, keys);
    }
  }

  /** An instance's joins are those of its records, because its records state one source. */
  lemma CollectedJoins(i: InstanceRecord, rs: seq<(PlacementRecord, SourceAvailability)>,
                       artifacts: seq<ArtifactRecord>, names: seq<Name>)
    requires Groups.Collects(i, rs)
    ensures SourceDeclared(i, artifacts) <==> forall r :: r in rs ==> SourceStands(r.1, artifacts)
    ensures PlacementsCovered(i, names) <==> forall r :: r in rs ==> r.0.codegenUnit in names
  {
    hide Paths.PathOf;
    forall r | r in rs ensures SourceStands(r.1, artifacts) <==> SourceDeclared(i, artifacts) && r.0 in i.placements {
      var n :| 0 <= n < |rs| && rs[n] == r;
      assert i.placements[n] == r.0;
    }
    assert rs[0] in rs;
    forall p | p in i.placements ensures exists r :: r in rs && r.0 == p {
      var n :| 0 <= n < |i.placements| && i.placements[n] == p;
      assert rs[n] in rs;
    }
  }

  lemma JoinsAreRecords(bytes: seq<byte>, marker: Name, directory: Paths.Path, m: Decoder.CompilerManifest)
    requires Decoder.Decodes(bytes, marker, directory, Ok(m))
    ensures Codec.ReadStream(bytes, marker).Ok?
    ensures Joins(m) <==> RecordsJoin(ConfigurationIn(bytes, marker), EntriesIn(bytes, marker))
  {
    hide Codec.ReadStream, Decoder.Decodes, Decoder.KeyLeq, SourceStands, SourceDeclared, PlacementsCovered,
      Groups.Collects, AllAcceptable;
    DecodesExactly(bytes, marker, directory, Ok(m));
    Groups.DecodedInstances(bytes, marker, directory, m);
    var (c, es) := Codec.ReadStream(bytes, marker).value;
    var names := ModuleNames(m.modules);
    forall i | i in m.instances
      ensures var rs := Groups.RecordsOf(es, |es|, Groups.KeyOf(i));
              && (SourceDeclared(i, m.artifacts) <==> forall r :: r in rs ==> SourceStands(r.1, m.artifacts))
              && (PlacementsCovered(i, names) <==> forall r :: r in rs ==> r.0.codegenUnit in names)
    {
      CollectedJoins(i, Groups.RecordsOf(es, |es|, Groups.KeyOf(i)), m.artifacts, names);
    }
    if RecordsJoin(c, es) {
      forall i | i in m.instances
        ensures SourceDeclared(i, m.artifacts) && (c.unsupported.None? ==> PlacementsCovered(i, names))
      {
        RecordsAreEntries(es, Groups.KeyOf(i));
      }
    }
    if Joins(m) {
      forall e | e in es && e.Placement?
        ensures SourceStands(e.source, m.artifacts) && (c.unsupported.None? ==> e.placement.codegenUnit in names)
      {
        RecordsAreEntries(es, e.key);
        assert (e.placement, e.source) in Groups.RecordsOf(es, |es|, e.key);
        var n :| 0 <= n < |m.instances| && Groups.KeysOf(m.instances)[n] == e.key;
        assert m.instances[n] in m.instances && Groups.KeyOf(m.instances[n]) == e.key;
      }
    }
  }

  lemma RecordsAreEntries(es: seq<Entry>, k: Key)
    ensures forall r :: r in Groups.RecordsOf(es, |es|, k) <==>
              exists e :: e in es && e.Placement? && e.key == k && (e.placement, e.source) == r
  {
    forall r
      ensures r in Groups.RecordsOf(es, |es|, k) <==>
                exists e :: e in es && e.Placement? && e.key == k && (e.placement, e.source) == r
    {
      Groups.RecordOfEntry(es, |es|, k, r);
    }
  }

  // ---- From bytes to a manifest ----

  ghost predicate RecordsSupplied(c: Configuration, es: seq<Entry>, tools: Tools, files: Files) {
    Supplied(c, Groups.ArtifactsOf(es, |es|), Groups.ModulesOf(es, |es|), tools, files)
  }

  /** The records of a stream, the compiler and the files make a manifest. */
  ghost predicate Capturable(bytes: seq<byte>, marker: Name, directory: Paths.Path, tools: Tools, files: Files) {
    && Decodable(bytes, marker, directory)
    && RecordsSupplied(ConfigurationIn(bytes, marker), EntriesIn(bytes, marker), tools, files)
    && RecordsJoin(ConfigurationIn(bytes, marker), EntriesIn(bytes, marker))
  }

  /** One instance for each key, holding its records; the snapshots; and the modules or the reason for none. */
  ghost predicate IsEvidenceOf(e: CollectedEvidence, c: Configuration, es: seq<Entry>, tools: Tools, files: Files) {
    var keys, sources := Groups.KeysOf(e.instances), Groups.ArtifactsOf(es, |es|);
    && IsProvenance(e.provenance, c, tools)
    && Decoder.Ascending(keys)
    && (forall k :: k in keys <==> Groups.RecordsOf(es, |es|, k) != [])
    && (forall i :: i in e.instances ==> Groups.Collects(i, Groups.RecordsOf(es, |es|, Groups.KeyOf(i))))
    && LlvmOf(c, Groups.ModulesOf(es, |es|), files, sources, e.artifacts, e.llvm)
  }

  ghost predicate ValidEvidence(e: CollectedEvidence) {
    Valid(e.instances, e.artifacts, e.provenance, e.llvm)
  }

  function ManifestWith(e: CollectedEvidence, captureId: Name): InstanceManifest {
    InstanceManifest(captureId, e.instances, e.artifacts, e.provenance, e.llvm)
  }

  /**
   Decodes a manifest stream and collects its modules. This succeeds exactly on streams of acceptable
   records, given what the compiler and the files supply. The evidence is then valid exactly when the
   records join: every other check of a manifest passes by itself.
   */
  method ReadEvidence(bytes: seq<byte>, marker: Name, directory: Paths.Path, tools: Tools, files: Files)
    returns (r: Result<CollectedEvidence, Failure>)
    ensures r.Ok? <==>
              && Decodable(bytes, marker, directory)
              && RecordsSupplied(ConfigurationIn(bytes, marker), EntriesIn(bytes, marker), tools, files)
    ensures r.Ok? ==>
              && IsEvidenceOf(r.value, ConfigurationIn(bytes, marker), EntriesIn(bytes, marker), tools, files)
              && (ValidEvidence(r.value) <==>
                    RecordsJoin(ConfigurationIn(bytes, marker), EntriesIn(bytes, marker)))
  {
    hide Decoder.Decodes, Codec.ReadStream, Groups.Acceptable, InstancesValid, Supplied, Joins, RecordsJoin, LlvmOf,
      Valid, Decoder.KeyLeq, Groups.Collects;
    var decoder := new Decoder.ManifestDecoder(bytes, marker, directory);
    var decoded := decoder.Decode();
    DecodesExactly(bytes, marker, directory, decoded);
    if decoded.Err? {
      return Err(Undecodable(decoded.error));
    }
    var m := decoded.value;
    Groups.DecodedInstances(bytes, marker, directory, m);
    var evidence :- Collect(m, tools, files);
    EvidenceIsValid(bytes, marker, directory, m, tools, files, evidence.artifacts, evidence.llvm);
    JoinsAreRecords(bytes, marker, directory, m);
    r := Ok(evidence);
  }

  /** Validates evidence as the manifest of a capture. */
  method IntoManifest(e: CollectedEvidence, captureId: Name) returns (r: Result<InstanceManifest, Failure>)
    ensures r.Ok? <==> ValidEvidence(e)
    ensures r.Ok? ==> r.value == ManifestWith(e, captureId)
  {
    var made := New(captureId, e.instances, e.artifacts, e.provenance, e.llvm);
    r := if made.Err? then Err(InvalidRecord(made.error)) else Ok(made.value);
  }

  /** Both at once: from the driver's bytes to a capture's manifest. */
  method Assemble(captureId: Name, bytes: seq<byte>, marker: Name, directory: Paths.Path, tools: Tools, files: Files)
    returns (r: Result<InstanceManifest, Failure>, ghost evidence: Option<CollectedEvidence>)
    ensures r.Ok? <==> Capturable(bytes, marker, directory, tools, files)
    ensures r.Ok? ==>
              && ValidManifest(r.value) && evidence.Some? && r.value == ManifestWith(evidence.value, captureId)
              && IsEvidenceOf(evidence.value, ConfigurationIn(bytes, marker), EntriesIn(bytes, marker), tools, files)
  {
    hide Codec.ReadStream, Decodable, RecordsSupplied, RecordsJoin, IsEvidenceOf, Valid;
    evidence := None;
    var read := ReadEvidence(bytes, marker, directory, tools, files);
    if read.Err? {
      return Err(read.error), evidence;
    }
    evidence := Some(read.value);
    r := IntoManifest(read.value, captureId);
  }

  // ---- What was written, and what it makes ----

  /** Records and files determine the evidence. */
  lemma EvidenceIsDetermined(e: CollectedEvidence, f: CollectedEvidence, c: Configuration, es: seq<Entry>, tools: Tools,
                             files: Files)
    requires IsEvidenceOf(e, c, es, tools, files) && IsEvidenceOf(f, c, es, tools, files)
    ensures e == f
  {
    hide Groups.Collects, LlvmOf, Decoder.KeyLeq;
    SameInstances(e.instances, f.instances, es);
    SameLlvm(c, Groups.ModulesOf(es, |es|), files, Groups.ArtifactsOf(es, |es|), e, f);
  }

  lemma SameInstances(xs: seq<InstanceRecord>, ys: seq<InstanceRecord>, es: seq<Entry>)
    requires forall i :: i in xs ==> Groups.Collects(i, Groups.RecordsOf(es, |es|, Groups.KeyOf(i)))
    requires forall i :: i in ys ==> Groups.Collects(i, Groups.RecordsOf(es, |es|, Groups.KeyOf(i)))
    requires Decoder.Ascending(Groups.KeysOf(xs)) && Decoder.Ascending(Groups.KeysOf(ys))
    requires forall k :: k in Groups.KeysOf(xs) <==> k in Groups.KeysOf(ys)
    ensures xs == ys
  {
    hide Decoder.KeyLeq, Decoder.KeyLess, Groups.RecordsOf, Groups.Collects;
    var keys := Groups.KeysOf(xs);
    Decoder.AscendingIsSorted(keys);
    Decoder.AscendingIsSorted(Groups.KeysOf(ys));
    var groups := map k | k in keys :: Decoder.Group([], Unavailable(Nonlocal));
    Decoder.OneOrder(keys, Groups.KeysOf(ys), groups);
    forall n | 0 <= n < |xs| ensures xs[n] == ys[n] {
      assert xs[n] in xs && ys[n] in ys && Groups.KeyOf(xs[n]) == keys[n] == Groups.KeyOf(ys[n]);
      SameInstance(xs[n], ys[n], Groups.RecordsOf(es, |es|, keys[n]));
    }
  }

  lemma SameInstance(i: InstanceRecord, j: InstanceRecord, rs: seq<(PlacementRecord, SourceAvailability)>)
    requires Groups.KeyOf(i) == Groups.KeyOf(j) && Groups.Collects(i, rs) && Groups.Collects(j, rs)
    ensures i == j
  {
  }

  lemma SameLlvm(c: Configuration, ms: seq<Decoder.ExpectedModule>, files: Files, sources: seq<ArtifactRecord>,
                 e: CollectedEvidence, f: CollectedEvidence)
    requires LlvmOf(c, ms, files, sources, e.artifacts, e.llvm) && LlvmOf(c, ms, files, sources, f.artifacts, f.llvm)
    ensures e.artifacts == f.artifacts && e.llvm == f.llvm
  {
    hide Collection.NextId, Grammar.Index;
    if c.unsupported.None? {
      var n := |sources|;
      forall i | 0 <= i < |e.artifacts| ensures e.artifacts[i] == f.artifacts[i] {
        if i >= n {
          assert IsModule(ms[i - n], files, Collection.NextId(sources) + (i - n), c.lto, e.llvm.modules[i - n],
                          e.artifacts[n + (i - n)]);
        }
      }
      forall k | 0 <= k < |ms| ensures e.llvm.modules[k] == f.llvm.modules[k] {
      }
      assert e.llvm.modules == f.llvm.modules;
    }
  }

  /** A written stream decodes to nothing but what was written, and does so exactly if that is acceptable. */
  lemma WrittenIsRead(marker: Name, directory: Paths.Path, c: Configuration, es: seq<Entry>)
    requires Codec.Encodable(marker, c, es)
    ensures var bytes := Codec.Stream(marker, c, es);
            && (Decodable(bytes, marker, directory) <==>
                  Codec.AllAdmissible(es, 0) && AllAcceptable(c, directory, es))
            && (Decodable(bytes, marker, directory) ==>
                  ConfigurationIn(bytes, marker) == c && EntriesIn(bytes, marker) == es)
  {
    hide Codec.ReadStream, Codec.Stream, AllAcceptable, Codec.AllAdmissible, Codec.Encodable;
    var bytes := Codec.Stream(marker, c, es);
    Codec.AcceptedStreams(bytes, marker, c, es);
    if Codec.ReadStream(bytes, marker).Ok? {
      var (d, fs) := Codec.ReadStream(bytes, marker).value;
      Codec.AcceptedStreams(bytes, marker, d, fs);
      Codec.OneStream(marker, c, es, d, fs);
    }
  }
}
