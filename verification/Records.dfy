/** The durable records of one capture, and the checks that their constructors make. */
module Records {
  import opened Base
  import IndexRecords

  type Name = seq<byte>

  datatype InvalidField = InvalidField(field: string)

  type Checked<+T> = Result<T, InvalidField>

  datatype ByteRange = ByteRange(start: nat, length: nat) {
    function End(): nat {
      start + length
    }
  }

  function MakeRange(start: nat, length: nat): (r: Checked<ByteRange>)
    ensures r.Ok? <==> start + length <= U64_MAX
    ensures r.Ok? ==> r.value == ByteRange(start, length) && r.value.End() == start + length <= U64_MAX
  {
    if start + length > U64_MAX then Err(InvalidField("byte range")) else Ok(ByteRange(start, length))
  }

  datatype ArtifactKind = SourceText | LlvmText

  datatype ArtifactRecord = ArtifactRecord(id: nat, kind: ArtifactKind, byteLen: nat)

  datatype SourceUnavailable = Nonlocal | Unloaded | Generated | UnsupportedSpan | OutsidePackage

  datatype SourceRecord = SourceRecord(artifact: nat, range: ByteRange, displayPath: Name, startingLine: nat)

  datatype SourceAvailability = Available(source: SourceRecord) | Unavailable(reason: SourceUnavailable)

  function MakeSource(artifact: nat, range: ByteRange, displayPath: Name, startingLine: nat)
    : (r: Checked<SourceRecord>)
    ensures r.Ok? <==> displayPath != [] && startingLine != 0
    ensures r.Ok? ==> r.value == SourceRecord(artifact, range, displayPath, startingLine)
  {
    if displayPath == [] || startingLine == 0 then Err(InvalidField("source"))
    else Ok(SourceRecord(artifact, range, displayPath, startingLine))
  }

  datatype PlacementRecord =
    PlacementRecord(codegenUnit: Name, linkage: Name, visibility: Name, localCopy: bool, sizeEstimate: nat)

  function MakePlacement(unit: Name, linkage: Name, visibility: Name, localCopy: bool, size: nat)
    : (r: Checked<PlacementRecord>)
    ensures r.Ok? <==> unit != [] && linkage != [] && visibility != []
    ensures r.Ok? ==> r.value == PlacementRecord(unit, linkage, visibility, localCopy, size)
  {
    if unit == [] || linkage == [] || visibility == [] then Err(InvalidField("placement"))
    else Ok(PlacementRecord(unit, linkage, visibility, localCopy, size))
  }

  datatype DefinitionRecord = DefinitionRecord(crateName: Name, definitionPath: Name)

  datatype InstanceRecord = InstanceRecord(
    definition: DefinitionRecord,
    displayName: Name,
    rawSymbol: Name,
    placements: seq<PlacementRecord>,
    source: SourceAvailability)

  /** What names an instance within its manifest. */
  datatype Identity = Identity(definition: DefinitionRecord, displayName: Name, rawSymbol: Name)

  function IdentityOf(i: InstanceRecord): Identity {
    Identity(i.definition, i.displayName, i.rawSymbol)
  }

  datatype LlvmStage = NoLtoOptimized | LocalThinLtoPostPassManager

  datatype LlvmLto = Off | LocalThin | CrossCrateThin | Fat

  datatype LlvmModuleRecord =
    LlvmModuleRecord(artifact: nat, compilerModule: Name, stage: LlvmStage, definitions: seq<IndexRecords.Definition>)

  datatype Unsupported =
    | Incremental | CrossCrateThinLto | FatLto | LinkerPluginLto | OtherBackend | UnverifiedCompiler

  datatype LlvmCollection = Collected(modules: seq<LlvmModuleRecord>) | NotCaptured(reason: Unsupported)

  datatype LlvmProvenance = LlvmProvenance(
    backend: Name,
    llvmVersion: Option<Name>,
    target: Name,
    optimization: Name,
    lto: LlvmLto,
    incremental: bool,
    linkerPluginLto: bool,
    codegenUnits: nat,
    recipeRevision: nat)

  predicate IsOptimization(level: Name) {
    level in {Text("0"), Text("1"), Text("2"), Text("3"), Text("s"), Text("z")}
  }

  ghost predicate ValidProvenance(p: LlvmProvenance) {
    && p.backend != [] && p.target != []
    && p.llvmVersion != Some([])
    && p.optimization in {Text("0"), Text("1"), Text("2"), Text("3"), Text("s"), Text("z")}
    && p.codegenUnits != 0 && p.recipeRevision != 0
  }

  function NewProvenance(p: LlvmProvenance): (r: Checked<LlvmProvenance>)
    ensures r == Ok(p) <==> ValidProvenance(p)
    ensures r.Ok? ==> r.value == p
  {
    if p.backend == [] then Err(InvalidField("codegen backend"))
    else if p.target == [] then Err(InvalidField("LLVM effective target"))
    else if p.llvmVersion == Some([]) then Err(InvalidField("LLVM version"))
    else if !IsOptimization(p.optimization) then Err(InvalidField("LLVM optimization"))
    else if p.codegenUnits == 0 || p.recipeRevision == 0 then Err(InvalidField("LLVM provenance"))
    else Ok(p)
  }

  datatype InstanceManifest = InstanceManifest(
    captureId: Name,
    instances: seq<InstanceRecord>,
    artifacts: seq<ArtifactRecord>,
    provenance: LlvmProvenance,
    llvm: LlvmCollection)

  /** No two entries have the same key. */
  ghost predicate Distinct<T>(xs: seq<T>) {
    forall i, j :: 0 <= i < j < |xs| ==> xs[i] != xs[j]
  }

  lemma {:induction false} DistinctMultiset<T>(xs: seq<T>)
    requires Distinct(xs)
    ensures multiset(xs) == multiset(set x | x in xs)
  {
    if xs != [] {
      var front, last := xs[..|xs| - 1], xs[|xs| - 1];
      DistinctMultiset(front);
      assert xs == front + [last];
      assert (set x | x in xs) == (set x | x in front) + {last};
      assert last !in front;
    }
  }

  lemma Twice<T>(xs: seq<T>, i: nat, j: nat)
    requires i < j < |xs| && xs[i] == xs[j]
    ensures multiset(xs)[xs[i]] >= 2
  {
    assert xs == xs[..i] + [xs[i]] + xs[i + 1..j] + [xs[j]] + xs[j + 1..];
  }

  /** Reordering keeps entries distinct. */
  lemma DistinctStays<T>(xs: seq<T>, ys: seq<T>)
    requires Distinct(xs) && multiset(xs) == multiset(ys)
    ensures Distinct(ys)
  {
    DistinctMultiset(xs);
    forall i, j | 0 <= i < j < |ys| ensures ys[i] != ys[j] {
      if ys[i] == ys[j] {
        Twice(ys, i, j);
      }
    }
  }

  function CodegenUnits(placements: seq<PlacementRecord>): (r: seq<Name>)
    ensures |r| == |placements| && forall i :: 0 <= i < |r| ==> r[i] == placements[i].codegenUnit
  {
    seq(|placements|, i requires 0 <= i < |placements| => placements[i].codegenUnit)
  }

  function Symbols(definitions: seq<IndexRecords.Definition>): (r: seq<Name>)
    ensures |r| == |definitions| && forall i :: 0 <= i < |r| ==> r[i] == definitions[i].symbol
  {
    seq(|definitions|, i requires 0 <= i < |definitions| => definitions[i].symbol)
  }

  ghost predicate ValidInstance(definition: DefinitionRecord, displayName: Name, rawSymbol: Name,
                                placements: seq<PlacementRecord>) {
    && displayName != [] && rawSymbol != []
    && placements != []
    && Distinct(CodegenUnits(placements))
  }

  /** An instance has names, and at least one placement, with no codegen unit twice. */
  method NewInstance(definition: DefinitionRecord, displayName: Name, rawSymbol: Name,
                     placements: seq<PlacementRecord>, source: SourceAvailability)
    returns (r: Checked<InstanceRecord>)
    ensures r.Ok? <==> ValidInstance(definition, displayName, rawSymbol, placements)
    ensures r.Ok? ==> r.value == InstanceRecord(definition, displayName, rawSymbol, placements, source)
  {
    if displayName == [] || rawSymbol == [] || placements == [] {
      return Err(InvalidField("instance"));
    }
    var units: set<Name> := {};
    for i := 0 to |placements|
      invariant units == set k | 0 <= k < i :: placements[k].codegenUnit
      invariant forall j, k :: 0 <= j < k < i ==> placements[j].codegenUnit != placements[k].codegenUnit
    {
      if placements[i].codegenUnit in units {
        var j :| 0 <= j < i && placements[j].codegenUnit == placements[i].codegenUnit;
        assert CodegenUnits(placements)[j] == CodegenUnits(placements)[i];
        return Err(InvalidField("instance placements"));
      }
      units := units + {placements[i].codegenUnit};
    }
    r := Ok(InstanceRecord(definition, displayName, rawSymbol, placements, source));
  }

  /** A module has a name, and no symbol twice. */
  method NewModule(artifact: nat, compilerModule: Name, stage: LlvmStage, definitions: seq<IndexRecords.Definition>)
    returns (r: Checked<LlvmModuleRecord>)
    ensures r.Ok? <==> compilerModule != [] && Distinct(Symbols(definitions))
    ensures r.Ok? ==> r.value == LlvmModuleRecord(artifact, compilerModule, stage, definitions)
  {
    if compilerModule == [] {
      return Err(InvalidField("LLVM compiler module"));
    }
    var symbols: set<Name> := {};
    for i := 0 to |definitions|
      invariant symbols == set k | 0 <= k < i :: definitions[k].symbol
      invariant forall j, k :: 0 <= j < k < i ==> definitions[j].symbol != definitions[k].symbol
    {
      if definitions[i].symbol in symbols {
        var j :| 0 <= j < i && definitions[j].symbol == definitions[i].symbol;
        assert Symbols(definitions)[j] == Symbols(definitions)[i];
        return Err(InvalidField("LLVM module symbols"));
      }
      symbols := symbols + {definitions[i].symbol};
    }
    r := Ok(LlvmModuleRecord(artifact, compilerModule, stage, definitions));
  }
}
