/** What the answers to evidence queries mean, in terms of the definitions that the modules record. */
module Answers {
  import opened Base
  import opened Sorting
  import opened Records
  import opened Manifests
  import opened Queries
  import Aliases
  import IndexRecords

  // ---- Chains of aliases ----

  /** Names of which each is defined as a direct alias of the one after it. */
  ghost predicate IsChain(ds: seq<IndexRecords.Definition>, names: seq<Name>) {
    forall i :: 0 <= i < |names| - 1 ==> IsAliasOf(ds, names[i], names[i + 1])
  }

  ghost predicate IsAliasOf(ds: seq<IndexRecords.Definition>, symbol: Name, target: Name) {
    exists d :: d in ds && d.symbol == symbol && d.kind == IndexRecords.DirectAlias(target)
  }

  ghost predicate Defines(ds: seq<IndexRecords.Definition>, symbol: Name) {
    exists d :: d in ds && d.symbol == symbol
  }

  /** The aliases lead from the symbol to the last name. */
  ghost predicate Leads(ds: seq<IndexRecords.Definition>, symbol: Name, aliases: seq<Name>, last: Name) {
    (aliases + [last])[0] == symbol && IsChain(ds, aliases + [last])
  }

  /** The body is the range of a function of the module to which aliases lead from the symbol. */
  ghost predicate IsBodyOf(b: LlvmBody, m: LlvmModuleRecord, d: IndexRecords.Definition, symbol: Name) {
    && d in m.definitions && d.kind.Function?
    && Leads(m.definitions, symbol, b.aliases, d.symbol)
    && b.rawSymbol == d.symbol && b.compilerModule == m.compilerModule && b.stage == m.stage
    && b.evidence.artifact == m.artifact
    && b.evidence.range.start == d.start && b.evidence.range.length == d.length
  }

  ghost predicate HasBody(modules: seq<LlvmModuleRecord>, symbol: Name, b: LlvmBody) {
    exists m, d :: m in modules && IsBodyOf(b, m, d, symbol)
  }

  /** Aliases lead to a definition of the module that is neither a function nor a direct alias. */
  ghost predicate EndsUnsupported(m: LlvmModuleRecord, symbol: Name) {
    exists d, aliases ::
      && d in m.definitions && !d.kind.Function? && !d.kind.DirectAlias?
      && Leads(m.definitions, symbol, aliases, d.symbol)
  }

  /** Aliases lead back to a name where they have been. */
  ghost predicate IsCyclic(m: LlvmModuleRecord, symbol: Name) {
    exists names, i: nat, j: nat ::
      i < j < |names| && names[0] == symbol && IsChain(m.definitions, names) && names[i] == names[j]
  }

  /** No symbol is defined twice, as the records of modules promise. */
  ghost predicate OneEach(ds: seq<IndexRecords.Definition>) {
    Distinct(Symbols(ds))
  }

  lemma SameDefinition(ds: seq<IndexRecords.Definition>, d: IndexRecords.Definition, e: IndexRecords.Definition)
    requires OneEach(ds) && d in ds && e in ds && d.symbol == e.symbol
    ensures d == e
  {
    var i :| 0 <= i < |ds| && ds[i] == d;
    var j :| 0 <= j < |ds| && ds[j] == e;
    assert Symbols(ds)[i] == Symbols(ds)[j];
  }

  lemma TableOf(ds: seq<IndexRecords.Definition>, d: IndexRecords.Definition)
    requires OneEach(ds)
    ensures d in ds <==> d.symbol in BySymbol(ds) && BySymbol(ds)[d.symbol] == d
  {
    hide OneEach;
    if d in ds {
      SameDefinition(ds, d, BySymbol(ds)[d.symbol]);
    }
  }

  lemma NextIsAlias(ds: seq<IndexRecords.Definition>, symbol: Name, target: Name)
    requires OneEach(ds)
    ensures Aliases.Next(BySymbol(ds), symbol) == Some(target) <==> IsAliasOf(ds, symbol, target)
  {
    hide OneEach, BySymbol;
    forall d ensures d in ds <==> d.symbol in BySymbol(ds) && BySymbol(ds)[d.symbol] == d {
      TableOf(ds, d);
    }
    if Aliases.Next(BySymbol(ds), symbol) == Some(target) {
      TableKeys(ds, symbol);
    }
  }

  lemma TableKeys(ds: seq<IndexRecords.Definition>, symbol: Name)
    ensures symbol in BySymbol(ds) ==> BySymbol(ds)[symbol] in ds && BySymbol(ds)[symbol].symbol == symbol
    ensures symbol in BySymbol(ds) <==> Defines(ds, symbol)
  {
  }

  /** A chain is what walking gives, name by name. */
  lemma {:induction false} ChainIsWalk(ds: seq<IndexRecords.Definition>, names: seq<Name>, k: nat)
    requires OneEach(ds) && IsChain(ds, names) && k < |names|
    ensures Aliases.Walk(BySymbol(ds), names[0], k) == Some(names[k])
  {
    hide OneEach, BySymbol, IsAliasOf;
    if k > 0 {
      ChainIsWalk(ds, names, k - 1);
      var i := k - 1;
      assert IsAliasOf(ds, names[i], names[i + 1]);
      NextIsAlias(ds, names[k - 1], names[k]);
    }
  }

  lemma WalkIsChain(ds: seq<IndexRecords.Definition>, symbol: Name, n: nat)
    requires OneEach(ds) && Aliases.Walk(BySymbol(ds), symbol, n).Some?
    ensures var last := Aliases.Walk(BySymbol(ds), symbol, n).value;
            Leads(ds, symbol, Aliases.Path(BySymbol(ds), symbol, n), last)
  {
    hide OneEach, BySymbol, IsAliasOf;
    var path, last := Aliases.Path(BySymbol(ds), symbol, n), Aliases.Walk(BySymbol(ds), symbol, n).value;
    var names := path + [last];
    forall i | 0 <= i < |names| - 1 ensures IsAliasOf(ds, names[i], names[i + 1]) {
      Aliases.WalkBefore(BySymbol(ds), symbol, n, i + 1);
      assert Aliases.Walk(BySymbol(ds), symbol, i) == Some(names[i]);
      assert Aliases.Walk(BySymbol(ds), symbol, i + 1) == Some(names[i + 1]);
      NextIsAlias(ds, names[i], names[i + 1]);
    }
    assert Aliases.Walk(BySymbol(ds), symbol, 0) == Some(names[0]);
  }

  lemma PathOfChain(ds: seq<IndexRecords.Definition>, symbol: Name, aliases: seq<Name>, last: Name)
    requires OneEach(ds) && Leads(ds, symbol, aliases, last)
    ensures Aliases.Walk(BySymbol(ds), symbol, |aliases|) == Some(last)
    ensures aliases == Aliases.Path(BySymbol(ds), symbol, |aliases|)
  {
    hide OneEach, BySymbol, IsChain, Aliases.Walk;
    var names := aliases + [last];
    ChainIsWalk(ds, names, |aliases|);
    forall i | 0 <= i < |aliases| ensures Aliases.Walk(BySymbol(ds), symbol, i) == Some(aliases[i]) {
      ChainIsWalk(ds, names, i);
    }
    Aliases.PathIsUnique(BySymbol(ds), symbol, aliases);
  }

  // ---- What one module contributes ----

  /** What the aliases from a symbol lead to, with the way there, decides its resolution. */
  lemma EndDecides(m: LlvmModuleRecord, symbol: Name, aliases: seq<Name>, d: IndexRecords.Definition)
    requires OneEach(m.definitions) && d in m.definitions && !d.kind.DirectAlias?
    requires Leads(m.definitions, symbol, aliases, d.symbol)
    ensures ResolutionOf(m, symbol) == if d.kind.Function? then Aliases.Body(d, aliases) else Aliases.UnsupportedAlias
  {
    hide OneEach, BySymbol, ResolutionOf, Leads, Aliases.Walk;
    var ds := BySymbol(m.definitions);
    PathOfChain(m.definitions, symbol, aliases, d.symbol);
    TableOf(m.definitions, d);
    Aliases.EndIsNotEndless(ds, symbol, |aliases|);
    var r := Aliases.AtEnd(ds, d.symbol, aliases);
    assert Aliases.EndsAfter(ds, symbol, |aliases|);
    Aliases.ResolvesOnce(ds, symbol, r, ResolutionOf(m, symbol));
  }

  /** A resolution that is no cycle stands at the end of its chain. */
  lemma EndStands(m: LlvmModuleRecord, symbol: Name) returns (aliases: seq<Name>, last: Name)
    requires OneEach(m.definitions) && !ResolutionOf(m, symbol).AliasCycle?
    ensures Leads(m.definitions, symbol, aliases, last)
    ensures ResolutionOf(m, symbol) == Aliases.AtEnd(BySymbol(m.definitions), last, aliases)
    ensures last in BySymbol(m.definitions) ==> !BySymbol(m.definitions)[last].kind.DirectAlias?
  {
    hide OneEach, BySymbol, ResolutionOf, Leads, Aliases.Walk, Aliases.AtEnd;
    var ds, r := BySymbol(m.definitions), ResolutionOf(m, symbol);
    assert Aliases.Resolves(ds, symbol, r);
    var n: nat :|
      && Aliases.EndsAfter(ds, symbol, n)
      && r == Aliases.AtEnd(ds, Aliases.Walk(ds, symbol, n).value, Aliases.Path(ds, symbol, n));
    WalkIsChain(m.definitions, symbol, n);
    aliases, last := Aliases.Path(ds, symbol, n), Aliases.Walk(ds, symbol, n).value;
  }

  /** A module supplies a body exactly if one of its functions stands at the end of the symbol's aliases. */
  lemma BodyInIs(m: LlvmModuleRecord, symbol: Name, b: LlvmBody)
    requires OneEach(m.definitions)
    ensures BodyIn(m, symbol) == Some(b) <==> exists d :: IsBodyOf(b, m, d, symbol)
  {
    hide OneEach, BySymbol, ResolutionOf, Leads;
    if BodyIn(m, symbol) == Some(b) {
      var aliases, last := EndStands(m, symbol);
      TableKeys(m.definitions, last);
      assert IsBodyOf(b, m, BySymbol(m.definitions)[last], symbol);
    }
    if d :| IsBodyOf(b, m, d, symbol) {
      EndDecides(m, symbol, b.aliases, d);
    }
  }

  lemma UnsupportedIs(m: LlvmModuleRecord, symbol: Name)
    requires OneEach(m.definitions)
    ensures ResolutionOf(m, symbol).UnsupportedAlias? <==> EndsUnsupported(m, symbol)
  {
    hide OneEach, BySymbol, ResolutionOf, Leads;
    if ResolutionOf(m, symbol).UnsupportedAlias? {
      var aliases, last := EndStands(m, symbol);
      TableKeys(m.definitions, last);
      var d := BySymbol(m.definitions)[last];
      assert d in m.definitions && Leads(m.definitions, symbol, aliases, d.symbol);
    }
    if d, aliases :|
      && d in m.definitions && !d.kind.Function? && !d.kind.DirectAlias?
      && Leads(m.definitions, symbol, aliases, d.symbol)
    {
      EndDecides(m, symbol, aliases, d);
    }
  }

  lemma {:induction false} Pigeonhole(names: seq<Name>, keys: set<Name>)
    requires (forall n :: n in names ==> n in keys) && |names| > |keys|
    ensures exists i: nat, j: nat :: i < j < |names| && names[i] == names[j]
    decreases |names|
  {
    var front, last := names[..|names| - 1], names[|names| - 1];
    if last in front {
      var i: nat :| i < |front| && front[i] == last;
      assert names[i] == names[|names| - 1];
    } else {
      Pigeonhole(front, keys - {last});
      var i: nat, j: nat :| i < j < |front| && front[i] == front[j];
      assert names[i] == names[j];
    }
  }

  /** An endless chain comes back to a name. */
  lemma EndlessRepeats(m: LlvmModuleRecord, symbol: Name)
    requires OneEach(m.definitions) && Aliases.Endless(BySymbol(m.definitions), symbol)
    ensures IsCyclic(m, symbol)
  {
    hide OneEach, BySymbol, Aliases.Walk;
    var ds := BySymbol(m.definitions);
    var n := |ds.Keys|;
    assert Aliases.Walk(ds, symbol, n).Some?;
    WalkIsChain(m.definitions, symbol, n);
    var path, last := Aliases.Path(ds, symbol, n), Aliases.Walk(ds, symbol, n).value;
    var names := path + [last];
    forall name | name in names ensures name in ds.Keys {
      var i :| 0 <= i < |names| && names[i] == name;
      EndlessStays(ds, symbol, i);
    }
    Pigeonhole(names, ds.Keys);
  }

  lemma EndlessStays(ds: Aliases.Definitions, symbol: Name, i: nat)
    requires Aliases.Endless(ds, symbol)
    ensures Aliases.Walk(ds, symbol, i).Some? && Aliases.Walk(ds, symbol, i).value in ds
  {
    var j := i + 1;
    assert Aliases.Walk(ds, symbol, j).Some?;
  }

  /** A module's chain is a cycle exactly if its aliases lead back to where they have been. */
  lemma CycleIs(m: LlvmModuleRecord, symbol: Name)
    requires OneEach(m.definitions)
    ensures ResolutionOf(m, symbol).AliasCycle? <==> IsCyclic(m, symbol)
  {
    hide OneEach, BySymbol, Aliases.Walk;
    var ds := BySymbol(m.definitions);
    assert Aliases.Resolves(ds, symbol, ResolutionOf(m, symbol));
    if ResolutionOf(m, symbol).AliasCycle? {
      EndlessRepeats(m, symbol);
    }
    if names, i: nat, j: nat :|
      i < j < |names| && names[0] == symbol && IsChain(m.definitions, names) && names[i] == names[j]
    {
      ChainIsWalk(m.definitions, names, i);
      ChainIsWalk(m.definitions, names, j);
      Aliases.RevisitIsEndless(ds, symbol, i, j);
    }
  }

  // ---- The whole answer ----

  /** Ascending by the module's name, as text. */
  ghost predicate ByModule(bodies: seq<LlvmBody>) {
    forall i, j :: 0 <= i < j < |bodies| ==> TextLess(bodies[i].compilerModule, bodies[j].compilerModule)
  }

  /**
   The bodies are exactly the functions to which a module's aliases lead from the symbol, in the order
   of the modules' names. Without one, an end that is no function is told apart from no definition.
   */
  lemma SelectedIs(modules: seq<LlvmModuleRecord>, symbol: Name)
    requires Distinct(Names(modules)) && forall m :: m in modules ==> OneEach(m.definitions)
    ensures match Selected(modules, symbol)
            case Bodies(bodies) =>
              bodies != [] && ByModule(bodies) && forall b :: b in bodies <==> HasBody(modules, symbol, b)
            case UnsupportedAlias =>
              (forall b :: !HasBody(modules, symbol, b)) && exists m :: m in modules && EndsUnsupported(m, symbol)
            case NoExactDefinition =>
              (forall b :: !HasBody(modules, symbol, b)) && forall m :: m in modules ==> !EndsUnsupported(m, symbol)
            case LlvmNotCaptured(_) => false
  {
    hide ResolutionOf, BodyIn, BodiesIn, OneEach, IsBodyOf, EndsUnsupported, BodyLeq;
    var bodies := BodiesIn(modules, symbol, |modules|);
    forall b ensures b in bodies <==> HasBody(modules, symbol, b) {
      BodyMembers(modules, symbol, b);
      forall m | m in modules ensures BodyIn(m, symbol) == Some(b) <==> exists d :: IsBodyOf(b, m, d, symbol) {
        BodyInIs(m, symbol, b);
      }
    }
    forall m | m in modules ensures ResolutionOf(m, symbol).UnsupportedAlias? <==> EndsUnsupported(m, symbol) {
      UnsupportedIs(m, symbol);
    }
    if bodies != [] {
      BodiesInDistinct(modules, symbol, |modules|);
      SortedByModule(bodies);
      assert bodies[0] in bodies;
    }
  }

  lemma SortedByModule(bodies: seq<LlvmBody>)
    requires OnePerModule(bodies)
    ensures var sorted := Sort(BodyLeq, bodies);
            ByModule(sorted) && |sorted| == |bodies| && forall b :: b in sorted <==> b in bodies
  {
    var sorted := Sort(BodyLeq, bodies);
    BodyLeqIsTotal();
    SortSorts(BodyLeq, bodies);
    SameMembers(sorted, bodies);
    StillOnePerModule(bodies, sorted);
    forall i, j | 0 <= i < j < |sorted| ensures TextLess(sorted[i].compilerModule, sorted[j].compilerModule) {
      assert BodyLeq(sorted[i], sorted[j]);
      TextLeqIsLess(sorted[i].compilerModule, sorted[j].compilerModule);
    }
  }

  lemma StillOnePerModule(bodies: seq<LlvmBody>, sorted: seq<LlvmBody>)
    requires OnePerModule(bodies) && multiset(bodies) == multiset(sorted)
    ensures OnePerModule(sorted)
  {
    assert Distinct(bodies);
    DistinctStays(bodies, sorted);
    SameMembers(sorted, bodies);
    forall i, j | 0 <= i < j < |sorted| ensures sorted[i].compilerModule != sorted[j].compilerModule {
      assert sorted[i] != sorted[j] && sorted[i] in sorted && sorted[j] in sorted;
      var k :| 0 <= k < |bodies| && bodies[k] == sorted[i];
      var l :| 0 <= l < |bodies| && bodies[l] == sorted[j];
    }
  }

  /** A cycle in some module is an error, exactly if its aliases lead back to where they have been. */
  lemma CyclesAre(modules: seq<LlvmModuleRecord>, symbol: Name)
    requires forall m :: m in modules ==> OneEach(m.definitions)
    ensures HasCycle(modules, symbol) <==> exists m :: m in modules && IsCyclic(m, symbol)
  {
    hide ResolutionOf, IsCyclic, OneEach;
    forall m | m in modules ensures ResolutionOf(m, symbol).AliasCycle? <==> IsCyclic(m, symbol) {
      CycleIs(m, symbol);
    }
  }
}
