/** The joins that a capture's manifest must satisfy, and the constructor that checks them. */
module Manifests {
  import opened Base
  import opened Records

  /** The artifact is declared with this kind, and the range's end lies within its length. */
  ghost predicate Declares(artifacts: seq<ArtifactRecord>, id: nat, kind: ArtifactKind, end: nat) {
    exists a :: a in artifacts && a.id == id && a.kind == kind && end <= a.byteLen
  }

  function Ids(artifacts: seq<ArtifactRecord>): (r: seq<nat>)
    ensures |r| == |artifacts| && forall i :: 0 <= i < |r| ==> r[i] == artifacts[i].id
  {
    seq(|artifacts|, i requires 0 <= i < |artifacts| => artifacts[i].id)
  }

  function Identities(instances: seq<InstanceRecord>): (r: seq<Identity>)
    ensures |r| == |instances| && forall i :: 0 <= i < |r| ==>
              r[i] == Identity(instances[i].definition, instances[i].displayName, instances[i].rawSymbol)
  {
    seq(|instances|, i requires 0 <= i < |instances| => IdentityOf(instances[i]))
  }

  function Names(modules: seq<LlvmModuleRecord>): (r: seq<Name>)
    ensures |r| == |modules| && forall i :: 0 <= i < |r| ==> r[i] == modules[i].compilerModule
  {
    seq(|modules|, i requires 0 <= i < |modules| => modules[i].compilerModule)
  }

  function Artifacts(modules: seq<LlvmModuleRecord>): (r: seq<nat>)
    ensures |r| == |modules| && forall i :: 0 <= i < |r| ==> r[i] == modules[i].artifact
  {
    seq(|modules|, i requires 0 <= i < |modules| => modules[i].artifact)
  }

  function Modules(llvm: LlvmCollection): seq<LlvmModuleRecord> {
    if llvm.Collected? then llvm.modules else []
  }

  predicate Supports(p: LlvmProvenance) {
    && p.backend == Text("llvm")
    && p.llvmVersion.Some?
    && !p.incremental
    && !p.linkerPluginLto
    && (p.lto.Off? || p.lto.LocalThin?)
  }

  predicate StageAgrees(stage: LlvmStage, lto: LlvmLto) {
    (stage.NoLtoOptimized? && lto.Off?) || (stage.LocalThinLtoPostPassManager? && lto.LocalThin?)
  }

  ghost predicate SourceDeclared(i: InstanceRecord, artifacts: seq<ArtifactRecord>) {
    i.source.Available? ==>
      Declares(artifacts, i.source.source.artifact, SourceText, i.source.source.range.End())
  }

  ghost predicate ModuleFits(m: LlvmModuleRecord, artifacts: seq<ArtifactRecord>, lto: LlvmLto) {
    && (m.stage.NoLtoOptimized? <==> lto.Off?) && (m.stage.LocalThinLtoPostPassManager? <==> lto.LocalThin?)
    && Declares(artifacts, m.artifact, LlvmText, 0)
    && forall d :: d in m.definitions ==> Declares(artifacts, m.artifact, LlvmText, d.End())
  }

  ghost predicate PlacementsCovered(i: InstanceRecord, names: seq<Name>) {
    forall p :: p in i.placements ==> p.codegenUnit in names
  }

  ghost predicate ValidLlvm(instances: seq<InstanceRecord>, artifacts: seq<ArtifactRecord>, p: LlvmProvenance,
                            llvm: LlvmCollection) {
    match llvm
    case NotCaptured(_) => forall a :: a in artifacts ==> !a.kind.LlvmText?
    case Collected(modules) =>
      && p.backend == Text("llvm") && p.llvmVersion.Some? && !p.incremental && !p.linkerPluginLto
      && (p.lto.Off? || p.lto.LocalThin?)
      && Distinct(Names(modules)) && Distinct(Artifacts(modules))
      && (forall m :: m in modules ==> ModuleFits(m, artifacts, p.lto))
      && (forall i :: i in instances ==> PlacementsCovered(i, Names(modules)))
      && (forall a :: a in artifacts && a.kind.LlvmText? ==> a.id in Artifacts(modules))
  }

  ghost predicate Valid(instances: seq<InstanceRecord>, artifacts: seq<ArtifactRecord>, p: LlvmProvenance,
                        llvm: LlvmCollection) {
    && Distinct(Ids(artifacts))
    && Distinct(Identities(instances))
    && (forall i :: i in instances ==> SourceDeclared(i, artifacts))
    && ValidLlvm(instances, artifacts, p, llvm)
  }

  ghost predicate ValidManifest(m: InstanceManifest) {
    Valid(m.instances, m.artifacts, m.provenance, m.llvm)
  }

  type Table = map<nat, ArtifactRecord>

  ghost predicate Indexes(table: Table, artifacts: seq<ArtifactRecord>) {
    && (forall a :: a in artifacts ==> a.id in table && table[a.id] == a)
    && (forall id :: id in table ==> table[id] in artifacts && table[id].id == id)
  }

  predicate RangeFits(table: Table, id: nat, kind: ArtifactKind, end: nat) {
    id in table && table[id].kind == kind && end <= table[id].byteLen
  }

  lemma RangeFitsIsDeclared(table: Table, artifacts: seq<ArtifactRecord>, id: nat, kind: ArtifactKind, end: nat)
    requires Indexes(table, artifacts)
    ensures RangeFits(table, id, kind, end) <==> Declares(artifacts, id, kind, end)
  {
    if RangeFits(table, id, kind, end) {
      assert table[id] in artifacts;
    }
  }

  method BuildTable(artifacts: seq<ArtifactRecord>) returns (r: Checked<Table>)
    ensures r.Ok? <==> Distinct(Ids(artifacts))
    ensures r.Ok? ==> Indexes(r.value, artifacts)
  {
    var table: Table := map[];
    for i := 0 to |artifacts|
      invariant Indexes(table, artifacts[..i])
      invariant forall j, k :: 0 <= j < k < i ==> artifacts[j].id != artifacts[k].id
    {
      if artifacts[i].id in table {
        var j :| 0 <= j < i && artifacts[..i][j] == table[artifacts[i].id];
        assert Ids(artifacts)[j] == Ids(artifacts)[i];
        return Err(InvalidField("artifact table"));
      }
      assert artifacts[..i + 1] == artifacts[..i] + [artifacts[i]];
      table := table[artifacts[i].id := artifacts[i]];
    }
    assert artifacts[..|artifacts|] == artifacts;
    r := Ok(table);
  }

  method CheckInstances(instances: seq<InstanceRecord>, table: Table, ghost artifacts: seq<ArtifactRecord>)
    returns (r: Checked<()>)
    requires Indexes(table, artifacts)
    ensures r.Ok? <==> Distinct(Identities(instances)) && forall i :: i in instances ==> SourceDeclared(i, artifacts)
  {
    var identities: set<Identity> := {};
    for i := 0 to |instances|
      invariant identities == set k | 0 <= k < i :: IdentityOf(instances[k])
      invariant forall j, k :: 0 <= j < k < i ==> IdentityOf(instances[j]) != IdentityOf(instances[k])
      invariant forall k :: 0 <= k < i ==> SourceDeclared(instances[k], artifacts)
    {
      var instance := instances[i];
      if IdentityOf(instance) in identities {
        var j :| 0 <= j < i && IdentityOf(instances[j]) == IdentityOf(instance);
        assert Identities(instances)[j] == Identities(instances)[i];
        return Err(InvalidField("instance manifest"));
      }
      identities := identities + {IdentityOf(instance)};
      if instance.source.Available? {
        var source := instance.source.source;
        RangeFitsIsDeclared(table, artifacts, source.artifact, SourceText, source.range.End());
        if !RangeFits(table, source.artifact, SourceText, source.range.End()) {
          assert !SourceDeclared(instances[i], artifacts);
          return Err(InvalidField("artifact range"));
        }
      }
    }
    r := Ok(());
  }

  method CheckModule(m: LlvmModuleRecord, lto: LlvmLto, table: Table, ghost artifacts: seq<ArtifactRecord>)
    returns (r: Checked<()>)
    requires Indexes(table, artifacts)
    ensures r.Ok? <==> ModuleFits(m, artifacts, lto)
  {
    if !StageAgrees(m.stage, lto) {
      return Err(InvalidField("LLVM module stage"));
    }
    RangeFitsIsDeclared(table, artifacts, m.artifact, LlvmText, 0);
    if !RangeFits(table, m.artifact, LlvmText, 0) {
      return Err(InvalidField("artifact range"));
    }
    for i := 0 to |m.definitions|
      invariant forall k :: 0 <= k < i ==> Declares(artifacts, m.artifact, LlvmText, m.definitions[k].End())
    {
      RangeFitsIsDeclared(table, artifacts, m.artifact, LlvmText, m.definitions[i].End());
      if !RangeFits(table, m.artifact, LlvmText, m.definitions[i].End()) {
        assert m.definitions[i] in m.definitions;
        return Err(InvalidField("artifact range"));
      }
    }
    r := Ok(());
  }

  method CheckModules(modules: seq<LlvmModuleRecord>, lto: LlvmLto, table: Table, ghost artifacts: seq<ArtifactRecord>)
    returns (r: Checked<()>, names: set<Name>, ids: set<nat>)
    requires Indexes(table, artifacts)
    ensures r.Ok? <==>
              && Distinct(Names(modules)) && Distinct(Artifacts(modules))
              && forall m :: m in modules ==> ModuleFits(m, artifacts, lto)
    ensures r.Ok? ==>
              (forall n :: n in names <==> n in Names(modules)) && (forall a :: a in ids <==> a in Artifacts(modules))
  {
    names, ids := {}, {};
    for i := 0 to |modules|
      invariant names == set k | 0 <= k < i :: modules[k].compilerModule
      invariant ids == set k | 0 <= k < i :: modules[k].artifact
      invariant forall j, k :: 0 <= j < k < i ==>
                  modules[j].compilerModule != modules[k].compilerModule && modules[j].artifact != modules[k].artifact
      invariant forall k :: 0 <= k < i ==> ModuleFits(modules[k], artifacts, lto)
    {
      var m := modules[i];
      if m.compilerModule in names {
        var j :| 0 <= j < i && modules[j].compilerModule == m.compilerModule;
        assert Names(modules)[j] == Names(modules)[i];
        return Err(InvalidField("LLVM modules")), names, ids;
      }
      if m.artifact in ids {
        var j :| 0 <= j < i && modules[j].artifact == m.artifact;
        assert Artifacts(modules)[j] == Artifacts(modules)[i];
        return Err(InvalidField("LLVM modules")), names, ids;
      }
      names, ids := names + {m.compilerModule}, ids + {m.artifact};
      var checked := CheckModule(m, lto, table, artifacts);
      if checked.Err? {
        assert modules[i] in modules;
        return checked, names, ids;
      }
    }
    forall n ensures n in names <==> n in Names(modules) {
      if n in names {
        var k :| 0 <= k < |modules| && modules[k].compilerModule == n;
        assert Names(modules)[k] == n;
      }
    }
    forall a ensures a in ids <==> a in Artifacts(modules) {
      if a in ids {
        var k :| 0 <= k < |modules| && modules[k].artifact == a;
        assert Artifacts(modules)[k] == a;
      }
    }
    r := Ok(());
  }

  predicate UnitsIn(i: InstanceRecord, names: set<Name>) {
    forall p :: p in i.placements ==> p.codegenUnit in names
  }

  method CheckLlvm(instances: seq<InstanceRecord>, table: Table, p: LlvmProvenance, llvm: LlvmCollection,
                   ghost artifacts: seq<ArtifactRecord>)
    returns (r: Checked<()>)
    requires Indexes(table, artifacts)
    ensures r.Ok? <==> ValidLlvm(instances, artifacts, p, llvm)
  {
    if llvm.Collected? && !Supports(p) {
      return Err(InvalidField("LLVM collection"));
    }
    var checked, names, ids := CheckModules(Modules(llvm), p.lto, table, artifacts);
    if checked.Err? {
      return checked;
    }
    if llvm.Collected? {
      for i := 0 to |instances|
        invariant forall k :: 0 <= k < i ==> PlacementsCovered(instances[k], Names(Modules(llvm)))
      {
        if !UnitsIn(instances[i], names) {
          assert instances[i] in instances && !PlacementsCovered(instances[i], Names(Modules(llvm)));
          return Err(InvalidField("LLVM modules"));
        }
      }
    }
    if id :| id in table && table[id].kind.LlvmText? && id !in ids {
      assert table[id] in artifacts;
      return Err(InvalidField("LLVM artifact"));
    }
    r := Ok(());
  }

  /** Builds a manifest exactly when all of its joins hold. */
  method New(captureId: Name, instances: seq<InstanceRecord>, artifacts: seq<ArtifactRecord>,
             provenance: LlvmProvenance, llvm: LlvmCollection)
    returns (r: Checked<InstanceManifest>)
    ensures r.Ok? <==> Valid(instances, artifacts, provenance, llvm)
    ensures r.Ok? ==> r.value == InstanceManifest(captureId, instances, artifacts, provenance, llvm)
  {
    var table :- BuildTable(artifacts);
    var _ :- CheckInstances(instances, table, artifacts);
    var _ :- CheckLlvm(instances, table, provenance, llvm, artifacts);
    r := Ok(InstanceManifest(captureId, instances, artifacts, provenance, llvm));
  }
}
