/** From a query to bytes: what a published capture's evidence copies to, at any later time. */
module Evidence {
  import opened Base
  import opened Records
  import opened Manifests
  import opened Stores
  import opened Histories
  import Answers
  import Assembly
  import Bodies
  import Copies
  import Decoder
  import Grammar
  import IndexRecords
  import Lexis
  import Parts
  import Protocol
  import Queries
  import Ranges


  /** The range passes every check of the copy, and its bytes are those of the published input. */
  ghost predicate Delivers(s: State, p: Publication, e: Queries.EvidenceRange) {
    var m := p.instances.record;
    && ReadInstances(s, p.Id()) == Ok(m)
    && Copies.FilesMatch(m, s.captures[p.Id()].artifacts)
    && Copies.CopyCheck(m, e).Ok?
    && e.artifact in s.captures[p.Id()].artifacts && e.artifact in p.inputs
    && s.captures[p.Id()].artifacts[e.artifact] == p.inputs[e.artifact]
    && e.range.End() <= |p.inputs[e.artifact]|
  }

  lemma CheckedRangeDelivers(attempts: seq<Attempt>, i: nat, n: nat, e: Queries.EvidenceRange)
    requires Possible(attempts) && i < n <= |attempts| && attempts[i].reached.Committed?
    requires Copies.CopyCheck(attempts[i].publication.instances.record, e).Ok?
    ensures Delivers(Run(attempts, n), attempts[i].publication, e)
  {
    var p := attempts[i].publication;
    CommittedIsReadable(attempts, i, n);
    hide Possible, Run, ReadCapture, ReadInstances, Copies.Declared, Consistent, Allowed, CanComplete;
    ReadEvidenceMatches(Run(attempts, n), p.Id());
  }

  lemma ReadEvidenceMatches(s: State, id: Name)
    requires ReadInstances(s, id).Ok?
    ensures id in s.captures && Copies.FilesMatch(ReadInstances(s, id).value, s.captures[id].artifacts)
  {
  }

  /**
   Every LLVM body that a query selects from a published manifest can be copied at any later time,
   whatever attempts followed, and gives the bytes that were published.
   */
  lemma PublishedBodiesDeliver(attempts: seq<Attempt>, i: nat, n: nat, symbol: Name, body: Queries.LlvmBody)
    requires Possible(attempts) && i < n <= |attempts| && attempts[i].reached.Committed?
    requires var m := attempts[i].publication.instances.record;
             && ValidManifest(m) && m.llvm.Collected?
             && Queries.Selected(m.llvm.modules, symbol).Bodies?
             && body in Queries.Selected(m.llvm.modules, symbol).bodies
    ensures Delivers(Run(attempts, n), attempts[i].publication, body.evidence)
  {
    hide Possible, Run, ValidManifest, Queries.Selected, Delivers, Copies.CopyCheck;
    Copies.LlvmEvidenceIsCopyable(attempts[i].publication.instances.record, symbol, body);
    CheckedRangeDelivers(attempts, i, n, body.evidence);
  }

  /** Each module's artifact is the text whose index its definitions are. */
  ghost predicate HoldTexts(modules: seq<LlvmModuleRecord>, inputs: Copies.Files) {
    forall m :: m in modules ==>
      && m.artifact in inputs
      && Grammar.Index(Lexis.Source(inputs[m.artifact], Lexis.Eof)) == Ok(m.definitions)
  }

  /**
   Collected modules hold the index of their texts, with no symbol twice, once the files under their new
   IDs are what was disassembled.
   */
  lemma CollectedTextsAreHeld(c: Protocol.Configuration, ms: seq<Decoder.ExpectedModule>, tools: Assembly.Tools,
                              files: Assembly.Files, sources: seq<ArtifactRecord>, artifacts: seq<ArtifactRecord>,
                              llvm: LlvmCollection, inputs: Copies.Files)
    requires Assembly.Supplied(c, sources, ms, tools, files) && c.unsupported.None?
    requires Assembly.LlvmOf(c, ms, files, sources, artifacts, llvm)
    requires forall k :: 0 <= k < |ms| && ms[k].path in files.bitcode ==>
               && llvm.modules[k].artifact in inputs
               && inputs[llvm.modules[k].artifact] == files.bitcode[ms[k].path].text.bytes
    ensures HoldTexts(llvm.modules, inputs) && forall m :: m in llvm.modules ==> Answers.OneEach(m.definitions)
  {
    hide Grammar.Index;
    forall m | m in llvm.modules
      ensures m.artifact in inputs && Answers.OneEach(m.definitions)
      ensures Grammar.Index(Lexis.Source(inputs[m.artifact], Lexis.Eof)) == Ok(m.definitions)
    {
      var k :| 0 <= k < |ms| && llvm.modules[k] == m;
      assert ms[k] in ms;
      var text := files.bitcode[ms[k].path].text;
      Ranges.IndexIsExactly(text, m.definitions);
      assert text == Lexis.Source(inputs[m.artifact], Lexis.Eof);
    }
  }

  /** The text between two offsets is a whole definition of the function: its keyword first, its brace last. */
  ghost predicate IsFunctionText(text: seq<byte>, start: nat, end: nat, symbol: Name) {
    && start + 6 < end <= |text| && text[start..start + 6] == Text("define") && text[end - 1] == '}' as byte
    && Ranges.IsFunction(Lexis.Source(text, Lexis.Eof), start, end, symbol)
  }

  lemma FunctionTextIs(text: seq<byte>, d: IndexRecords.Definition)
    requires d.kind.Function? && Grammar.Index(Lexis.Source(text, Lexis.Eof)).Ok?
    requires d in Grammar.Index(Lexis.Source(text, Lexis.Eof)).value
    ensures IsFunctionText(text, d.start, d.End(), d.symbol)
  {
    hide Grammar.Index, Parts.IsFunctionHead;
    var s := Lexis.Source(text, Lexis.Eof);
    Ranges.IndexRanges(s);
    assert Ranges.Covers(s, d);
    assert Ranges.IsFunction(s, d.start, d.End(), d.symbol);
    var body: nat, ps :|
      && body <= |s.bytes| && body <= d.start + Lexis.HEADER_LIMIT
      && Parts.IsFunctionHead(s, d.start + 6, body, d.symbol) && Bodies.IsBody(s, body, d.End(), ps);
    OccursSlice(text, d.start, Text("define"));
    HeadAdvances(s, d.start + 6, body, d.symbol);
  }

  lemma HeadAdvances(s: Lexis.Source, i: nat, body: nat, symbol: Name)
    requires Parts.IsFunctionHead(s, i, body, symbol)
    ensures i <= body
  {
  }

  /**
   Every LLVM body that a query selects is a whole definition, from its keyword to its brace, of what a
   module's aliases lead to from the symbol: a function of that module.
   */
  lemma SelectedBodiesAreFunctions(modules: seq<LlvmModuleRecord>, inputs: Copies.Files, symbol: Name,
                                   body: Queries.LlvmBody)
    requires Distinct(Names(modules)) && forall m :: m in modules ==> Answers.OneEach(m.definitions)
    requires HoldTexts(modules, inputs)
    requires Queries.Selected(modules, symbol).Bodies? && body in Queries.Selected(modules, symbol).bodies
    ensures exists m :: m in modules && Answers.Leads(m.definitions, symbol, body.aliases, body.rawSymbol)
                        && m.artifact == body.evidence.artifact && m.compilerModule == body.compilerModule
    ensures body.evidence.artifact in inputs
    ensures IsFunctionText(inputs[body.evidence.artifact], body.evidence.range.start, body.evidence.range.End(),
                           body.rawSymbol)
  {
    hide Queries.Selected, Grammar.Index, IsFunctionText, Answers.Leads, Answers.OneEach;
    Answers.SelectedIs(modules, symbol);
    assert Answers.HasBody(modules, symbol, body);
    var m, d :| m in modules && Answers.IsBodyOf(body, m, d, symbol);
    FunctionTextIs(inputs[m.artifact], d);
  }

  /** So is what a published capture's bodies copy to, whatever attempts followed. */
  lemma PublishedBodiesAreFunctions(attempts: seq<Attempt>, i: nat, n: nat, symbol: Name, body: Queries.LlvmBody)
    requires Possible(attempts) && i < n <= |attempts| && attempts[i].reached.Committed?
    requires var p := attempts[i].publication;
             var m := p.instances.record;
             && ValidManifest(m) && m.llvm.Collected? && HoldTexts(m.llvm.modules, p.inputs)
             && (forall mod :: mod in m.llvm.modules ==> Answers.OneEach(mod.definitions))
             && Queries.Selected(m.llvm.modules, symbol).Bodies?
             && body in Queries.Selected(m.llvm.modules, symbol).bodies
    ensures Delivers(Run(attempts, n), attempts[i].publication, body.evidence)
    ensures var files := Run(attempts, n).captures[attempts[i].publication.Id()].artifacts;
            IsFunctionText(files[body.evidence.artifact], body.evidence.range.start, body.evidence.range.End(),
                           body.rawSymbol)
  {
    hide Possible, Run, Queries.Selected, Copies.CopyCheck, Copies.FilesMatch, HoldTexts, Answers.OneEach,
      IsFunctionText, ReadInstances, ValidLlvm;
    var p := attempts[i].publication;
    PublishedBodiesDeliver(attempts, i, n, symbol, body);
    NamesAreDistinct(p.instances.record);
    SelectedBodiesAreFunctions(p.instances.record.llvm.modules, p.inputs, symbol, body);
  }

  lemma NamesAreDistinct(m: InstanceManifest)
    requires ValidManifest(m) && m.llvm.Collected?
    ensures Distinct(Names(m.llvm.modules))
  {
  }

  /** An instance's source range can be copied at any later time, likewise. */
  lemma PublishedSourceDelivers(attempts: seq<Attempt>, i: nat, n: nat, ordinal: nat, e: Queries.EvidenceRange)
    requires Possible(attempts) && i < n <= |attempts| && attempts[i].reached.Committed?
    requires ValidManifest(attempts[i].publication.instances.record)
    requires Queries.SourceEvidence(attempts[i].publication.instances.record, ordinal) == Ok(Ok(e))
    ensures Delivers(Run(attempts, n), attempts[i].publication, e)
  {
    hide Possible, Run, ValidManifest, Delivers, Copies.CopyCheck;
    Copies.SourceEvidenceIsCopyable(attempts[i].publication.instances.record, ordinal);
    CheckedRangeDelivers(attempts, i, n, e);
  }

  /**
   Copies delivered evidence from the store. The output is always a prefix of the range's bytes in
   the file that was published, and all of them unless reading or writing fails on the way.
   */
  method CopyPublished(s: State, id: Name, e: Queries.EvidenceRange, readable: nat, sink: Copies.Sink,
                       ghost p: Publication)
    returns (r: Result<(), Copies.Failure>, ghost delivered: nat)
    requires Delivers(s, p, e) && id == p.Id() && |sink.written| <= sink.capacity
    modifies sink
    ensures delivered <= e.range.length
    ensures sink.written == old(sink.written) + p.inputs[e.artifact][e.range.start..e.range.start + delivered]
    ensures r.Ok? ==> delivered == e.range.length
    ensures e.range.End() <= readable && old(|sink.written|) + e.range.length <= sink.capacity ==> r.Ok?
  {
    hide Copies.CopyCheck, Copies.FilesMatch;
    var m := ReadInstances(s, id).value;
    r, delivered := Copies.CopyEvidence(m, s.captures[id].artifacts, e, readable, sink);
  }
}
