/** Evidence queries over one validated manifest: source ranges, LLVM bodies, and instance search. */
module Queries {
  import opened Base
  import opened Sorting
  import opened Records
  import opened Manifests
  import Aliases
  import IndexRecords

  datatype Failure = InvalidReference | AliasCycle(compilerModule: Name) | EmptyQuery | InvalidLimit

  /** An artifact's range, to be copied from the capture. */
  datatype EvidenceRange = EvidenceRange(artifact: nat, range: ByteRange)

  function Referenced(m: InstanceManifest, ordinal: nat): Result<InstanceRecord, Failure> {
    if ordinal < |m.instances| then Ok(m.instances[ordinal]) else Err(InvalidReference)
  }

  /** An instance's own source range, or the reason why there is none. */
  function SourceEvidence(m: InstanceManifest, ordinal: nat)
    : (r: Result<Result<EvidenceRange, SourceUnavailable>, Failure>)
    ensures r.Err? <==> ordinal >= |m.instances|
    ensures r.Err? ==> r.error == InvalidReference
    ensures r.Ok? ==> (r.value.Ok? <==> m.instances[ordinal].source.Available?)
    ensures r.Ok? && r.value.Ok? ==>
              && r.value.value.artifact == m.instances[ordinal].source.source.artifact
              && r.value.value.range == m.instances[ordinal].source.source.range
    ensures r.Ok? && r.value.Err? ==> m.instances[ordinal].source == Unavailable(r.value.error)
  {
    var instance :- Referenced(m, ordinal);
    match instance.source
    case Available(source) => Ok(Ok(EvidenceRange(source.artifact, source.range)))
    case Unavailable(reason) => Ok(Err(reason))
  }

  // ---- LLVM bodies ----

  datatype LlvmBody = LlvmBody(
    evidence: EvidenceRange,
    compilerModule: Name,
    stage: LlvmStage,
    rawSymbol: Name,
    aliases: seq<Name>)

  datatype LlvmEvidence =
    | Bodies(bodies: seq<LlvmBody>)
    | LlvmNotCaptured(reason: Unsupported)
    | NoExactDefinition
    | UnsupportedAlias

  /** A module's definitions by symbol. */
  function BySymbol(definitions: seq<IndexRecords.Definition>): (table: Aliases.Definitions)
    ensures forall s :: s in table ==> table[s] in definitions && table[s].symbol == s
    ensures forall d :: d in definitions ==> d.symbol in table
  {
    if definitions == [] then map[]
    else
      var last := definitions[|definitions| - 1];
      assert definitions == definitions[..|definitions| - 1] + [last];
      BySymbol(definitions[..|definitions| - 1])[last.symbol := last]
  }

  lemma {:induction false} LastStep(ds: Aliases.Definitions, symbol: Name, n: nat)
    requires Aliases.Walk(ds, symbol, n).None?
    ensures exists k: nat :: Aliases.EndsAfter(ds, symbol, k)
    decreases n
  {
    if Aliases.Walk(ds, symbol, n - 1).None? {
      LastStep(ds, symbol, n - 1);
    } else {
      assert Aliases.EndsAfter(ds, symbol, n - 1);
    }
  }

  /** The result that the chain of a symbol determines. */
  ghost function ResolutionOf(m: LlvmModuleRecord, symbol: Name): (r: Aliases.Resolution)
    ensures Aliases.Resolves(BySymbol(m.definitions), symbol, r)
  {
    var ds := BySymbol(m.definitions);
    if Aliases.Endless(ds, symbol) then Aliases.AliasCycle
    else
      var n: nat :| Aliases.Walk(ds, symbol, n).None?;
      LastStep(ds, symbol, n);
      var k: nat :| Aliases.EndsAfter(ds, symbol, k);
      Aliases.AtEnd(ds, Aliases.Walk(ds, symbol, k).value, Aliases.Path(ds, symbol, k))
  }

  function BodyOf(m: LlvmModuleRecord, d: IndexRecords.Definition, aliases: seq<Name>): LlvmBody {
    LlvmBody(EvidenceRange(m.artifact, ByteRange(d.start, d.length)), m.compilerModule, m.stage, d.symbol, aliases)
  }

  ghost function BodyIn(m: LlvmModuleRecord, symbol: Name): (b: Option<LlvmBody>)
    ensures b.Some? ==> b.value.compilerModule == m.compilerModule && b.value.evidence.artifact == m.artifact
  {
    match ResolutionOf(m, symbol)
    case Body(d, aliases) => Some(BodyOf(m, d, aliases))
    case _ => None
  }

  /** The bodies that the first `n` modules supply, in module order. */
  ghost function BodiesIn(modules: seq<LlvmModuleRecord>, symbol: Name, n: nat): seq<LlvmBody>
    requires n <= |modules|
  {
    if n == 0 then []
    else
      var body := BodyIn(modules[n - 1], symbol);
      if body.None? then BodiesIn(modules, symbol, n - 1) else BodiesIn(modules, symbol, n - 1) + [body.value]
  }

  ghost predicate HasCycle(modules: seq<LlvmModuleRecord>, symbol: Name) {
    exists m :: m in modules && ResolutionOf(m, symbol).AliasCycle?
  }

  /** The name of the first module in which the symbol's chain is a cycle. */
  ghost predicate FirstCycle(modules: seq<LlvmModuleRecord>, symbol: Name, name: Name) {
    exists k :: 0 <= k < |modules| && IsFirstCycle(modules, symbol, k) && modules[k].compilerModule == name
  }

  ghost predicate IsFirstCycle(modules: seq<LlvmModuleRecord>, symbol: Name, k: nat)
    requires k < |modules|
  {
    && ResolutionOf(modules[k], symbol).AliasCycle?
    && forall j :: 0 <= j < k ==> !ResolutionOf(modules[j], symbol).AliasCycle?
  }

  ghost predicate HasUnsupported(modules: seq<LlvmModuleRecord>, symbol: Name) {
    exists m :: m in modules && ResolutionOf(m, symbol).UnsupportedAlias?
  }

  /** Compiler module, then range start, then range length. */
  predicate BodyLeq(a: LlvmBody, b: LlvmBody) {
    if a.compilerModule != b.compilerModule then TextLeq(a.compilerModule, b.compilerModule)
    else if a.evidence.range.start != b.evidence.range.start then a.evidence.range.start < b.evidence.range.start
    else a.evidence.range.length <= b.evidence.range.length
  }

  ghost function Selected(modules: seq<LlvmModuleRecord>, symbol: Name): LlvmEvidence {
    var bodies := BodiesIn(modules, symbol, |modules|);
    if bodies != [] then Bodies(Sort(BodyLeq, bodies))
    else if HasUnsupported(modules, symbol) then UnsupportedAlias
    else NoExactDefinition
  }

  /** Selects every body of an instance's raw symbol; a cycle in any module is an error. */
  method LlvmEvidenceOf(m: InstanceManifest, ordinal: nat) returns (r: Result<LlvmEvidence, Failure>)
    ensures ordinal >= |m.instances| ==> r == Err(InvalidReference)
    ensures ordinal < |m.instances| && m.llvm.NotCaptured? ==> r == Ok(LlvmNotCaptured(m.llvm.reason))
    ensures ordinal < |m.instances| && m.llvm.Collected? ==>
              var symbol := m.instances[ordinal].rawSymbol;
              && (r.Err? <==> HasCycle(m.llvm.modules, symbol))
              && (r.Err? ==> r.error.AliasCycle? && FirstCycle(m.llvm.modules, symbol, r.error.compilerModule))
              && (r.Ok? ==> r.value == Selected(m.llvm.modules, symbol))
  {
    hide ResolutionOf, Aliases.Resolves, BySymbol;
    var instance :- Referenced(m, ordinal);
    if m.llvm.NotCaptured? {
      return Ok(LlvmNotCaptured(m.llvm.reason));
    }
    var modules, symbol := m.llvm.modules, instance.rawSymbol;
    var bodies: seq<LlvmBody> := [];
    var unsupported := false;
    for i := 0 to |modules|
      invariant bodies == BodiesIn(modules, symbol, i)
      invariant unsupported <==> exists k :: 0 <= k < i && ResolutionOf(modules[k], symbol).UnsupportedAlias?
      invariant forall k :: 0 <= k < i ==> !ResolutionOf(modules[k], symbol).AliasCycle?
    {
      var mod := modules[i];
      var resolution := Aliases.Resolve(BySymbol(mod.definitions), symbol);
      Aliases.ResolvesOnce(BySymbol(mod.definitions), symbol, resolution, ResolutionOf(mod, symbol));
      match resolution {
        case AliasCycle =>
          assert mod in modules && IsFirstCycle(modules, symbol, i);
          return Err(AliasCycle(mod.compilerModule));
        case Body(d, aliases) => bodies := bodies + [BodyOf(mod, d, aliases)];
        case NoExactDefinition =>
        case UnsupportedAlias => unsupported := true;
      }
    }
    if bodies == [] {
      return Ok(if unsupported then UnsupportedAlias else NoExactDefinition);
    }
    r := Ok(Bodies(Sort(BodyLeq, bodies)));
  }

  lemma BodyLeqIsTotal()
    ensures TotalOrder(BodyLeq)
  {
    forall a: LlvmBody, b: LlvmBody ensures BodyLeq(a, b) || BodyLeq(b, a) {
      TextLeqTotal(a.compilerModule, b.compilerModule);
    }
    forall a: LlvmBody, b: LlvmBody, c: LlvmBody | BodyLeq(a, b) && BodyLeq(b, c) ensures BodyLeq(a, c) {
      var x, y, z := a.compilerModule, b.compilerModule, c.compilerModule;
      if x != y && y != z {
        TextLeqTransitive(x, y, z);
        if x == z {
          TextLeqAntisymmetric(x, y);
        }
      }
    }
  }

  lemma {:induction false} BodiesInMembers(modules: seq<LlvmModuleRecord>, symbol: Name, n: nat, b: LlvmBody)
    requires n <= |modules|
    ensures b in BodiesIn(modules, symbol, n) <==> exists k :: 0 <= k < n && BodyIn(modules[k], symbol) == Some(b)
  {
    hide BodyIn;
    if n > 0 {
      BodiesInMembers(modules, symbol, n - 1, b);
    }
  }

  ghost predicate OnePerModule(bodies: seq<LlvmBody>) {
    forall i, j :: 0 <= i < j < |bodies| ==> bodies[i].compilerModule != bodies[j].compilerModule
  }

  lemma {:induction false} BodiesInDistinct(modules: seq<LlvmModuleRecord>, symbol: Name, n: nat)
    requires n <= |modules| && Distinct(Names(modules))
    ensures OnePerModule(BodiesIn(modules, symbol, n))
  {
    hide BodyIn;
    if n == 0 {
      return;
    }
    var front, last := BodiesIn(modules, symbol, n - 1), modules[n - 1];
    BodiesInDistinct(modules, symbol, n - 1);
    forall i | 0 <= i < |front| ensures front[i].compilerModule != last.compilerModule {
      BodiesInMembers(modules, symbol, n - 1, front[i]);
      var k :| 0 <= k < n - 1 && BodyIn(modules[k], symbol) == Some(front[i]);
      assert Names(modules)[k] != Names(modules)[n - 1];
    }
  }

  lemma BodyMembers(modules: seq<LlvmModuleRecord>, symbol: Name, b: LlvmBody)
    ensures b in BodiesIn(modules, symbol, |modules|) <==> exists m :: m in modules && BodyIn(m, symbol) == Some(b)
  {
    hide BodyIn, BodiesIn;
    BodiesInMembers(modules, symbol, |modules|, b);
    if m :| m in modules && BodyIn(m, symbol) == Some(b) {
      var k :| 0 <= k < |modules| && modules[k] == m;
    }
  }

  /** The answer does not depend on the order of the modules. */
  lemma ModuleOrderDoesNotMatter(modules: seq<LlvmModuleRecord>, other: seq<LlvmModuleRecord>, symbol: Name)
    requires Distinct(Names(modules)) && Distinct(Names(other))
    requires forall m :: m in modules <==> m in other
    ensures Selected(modules, symbol) == Selected(other, symbol)
    ensures HasCycle(modules, symbol) <==> HasCycle(other, symbol)
  {
    var xs, ys := BodiesIn(modules, symbol, |modules|), BodiesIn(other, symbol, |other|);
    BodiesInDistinct(modules, symbol, |modules|);
    BodiesInDistinct(other, symbol, |other|);
    hide ResolutionOf, BodyIn, BodiesIn;
    forall b ensures b in xs <==> b in ys {
      BodyMembers(modules, symbol, b);
      BodyMembers(other, symbol, b);
    }
    SortedListingIsUnique(xs, ys);
  }

  lemma SortedListingIsUnique(xs: seq<LlvmBody>, ys: seq<LlvmBody>)
    requires OnePerModule(xs) && OnePerModule(ys) && forall b :: b in xs <==> b in ys
    ensures Sort(BodyLeq, xs) == Sort(BodyLeq, ys) && (xs == [] <==> ys == [])
  {
    DistinctMultiset(xs);
    DistinctMultiset(ys);
    assert (set b | b in xs) == (set b | b in ys);
    assert multiset(xs) == multiset(ys);
    if xs != [] {
      assert xs[0] in ys;
    }
    if ys != [] {
      assert ys[0] in xs;
    }
    BodyLeqIsTotal();
    SortSorts(BodyLeq, xs);
    SortSorts(BodyLeq, ys);
    var members := multiset(xs);
    forall a, b | a in members && b in members && BodyLeq(a, b) && BodyLeq(b, a) ensures a == b {
      assert a in xs && b in xs;
      if a.compilerModule != b.compilerModule {
        TextLeqAntisymmetric(a.compilerModule, b.compilerModule);
      }
    }
    SortedIsUnique(BodyLeq, Sort(BodyLeq, xs), Sort(BodyLeq, ys));
  }
}
