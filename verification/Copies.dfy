/** Bounded copying of artifact bytes, and why every range that a query returns can be copied. */
module Copies {
  import opened Base
  import opened Records
  import opened Manifests
  import opened Queries
  import Aliases
  import Sorting

  const COPY_BUFFER_BYTES: nat := 64 * 1024

  datatype Failure = ReadFailed | WriteFailed | UnknownArtifact | OutOfRange | WrongLength

  /** An open file. Reading fails past its end, and past `readable` for any other reason. */
  class FileReader {
    const data: seq<byte>
    const readable: nat
    var position: nat

    constructor (data: seq<byte>, readable: nat, position: nat)
      ensures this.data == data && this.readable == readable && this.position == position
    {
      this.data, this.readable, this.position := data, readable, position;
    }

    ghost predicate CanRead(count: nat)
      reads this
    {
      position + count <= |data| && position + count <= readable
    }

    method ReadExact(buffer: array<byte>, count: nat) returns (ok: bool)
      requires count <= buffer.Length
      modifies this, buffer
      ensures ok == old(CanRead(count))
      ensures ok ==> position == old(position) + count
      ensures ok ==> forall i :: 0 <= i < count ==> buffer[i] == data[old(position) + i]
    {
      if position + count > |data| || position + count > readable {
        return false;
      }
      forall i | 0 <= i < count {
        buffer[i] := data[position + i];
      }
      position := position + count;
      ok := true;
    }
  }

  /** A writer that accepts `capacity` bytes in all and then fails, after a partial write. */
  class Sink {
    const capacity: nat
    var written: seq<byte>

    constructor (capacity: nat)
      ensures this.capacity == capacity && written == []
    {
      this.capacity, this.written := capacity, [];
    }

    method WriteAll(buffer: array<byte>, count: nat) returns (ok: bool)
      requires count <= buffer.Length && |written| <= capacity
      modifies this
      ensures ok <==> old(|written|) + count <= capacity
      ensures written == old(written) + buffer[..Min(count, capacity - old(|written|))]
    {
      ok := |written| + count <= capacity;
      written := written + buffer[..Min(count, capacity - |written|)];
    }
  }

  /** The first `n` bytes at a position; an empty range has none, wherever it lies. */
  function Bytes(data: seq<byte>, start: nat, n: nat): (bytes: seq<byte>)
    requires n == 0 || start + n <= |data|
    ensures |bytes| == n
  {
    if n == 0 then [] else data[start..start + n]
  }

  lemma SlicesJoin(data: seq<byte>, i: nat, j: nat, k: nat)
    requires i <= j <= k <= |data|
    ensures data[i..j] + data[j..k] == data[i..k]
  {
  }

  lemma BytesJoin(data: seq<byte>, start: nat, n: nat, more: nat)
    requires more == 0 || start + n + more <= |data|
    requires n == 0 || start + n <= |data|
    ensures Bytes(data, start, n) + Bytes(data, start + n, more) == Bytes(data, start, n + more)
  {
    if n > 0 && more > 0 {
      SlicesJoin(data, start, start + n, start + n + more);
    }
  }

  lemma BytesGrow(before: seq<byte>, data: seq<byte>, start: nat, n: nat, more: nat)
    requires more == 0 || start + n + more <= |data|
    requires n == 0 || start + n <= |data|
    ensures before + Bytes(data, start, n) + Bytes(data, start + n, more) == before + Bytes(data, start, n + more)
  {
    hide Bytes;
    BytesJoin(data, start, n, more);
  }

  /** One turn of the copy: at most a buffer's worth, and all of it unless an end fails. */
  method CopyChunk(reader: FileReader, buffer: array<byte>, count: nat, sink: Sink)
    returns (r: Result<(), Failure>, ghost accepted: nat)
    requires 0 < count <= buffer.Length && |sink.written| <= sink.capacity
    modifies reader, buffer, sink
    ensures accepted <= count && (accepted > 0 ==> old(reader.CanRead(count)))
    ensures match r
            case Ok(_) => accepted == count && reader.position == old(reader.position) + count
            case Err(e) => if e.ReadFailed? then !old(reader.CanRead(count))
                           else e.WriteFailed? && old(|sink.written|) + count > sink.capacity
    ensures sink.written == old(sink.written) + Bytes(reader.data, old(reader.position), accepted)
    ensures |sink.written| <= sink.capacity
  {
    accepted := 0;
    var read := reader.ReadExact(buffer, count);
    if !read {
      return Err(ReadFailed), accepted;
    }
    accepted := Min(count, sink.capacity - |sink.written|);
    assert buffer[..accepted] == Bytes(reader.data, old(reader.position), accepted);
    var wrote := sink.WriteAll(buffer, count);
    r := if wrote then Ok(()) else Err(WriteFailed);
  }

  /**
   Copies exactly `length` bytes from the reader's position, chunk by chunk. The output is always a
   prefix of them. It is all of them exactly when both ends can carry that many, and otherwise the
   error names an end that cannot.
   */
  method CopyBytes(reader: FileReader, length: nat, sink: Sink) returns (r: Result<(), Failure>, ghost delivered: nat)
    requires |sink.written| <= sink.capacity
    modifies reader, sink
    ensures delivered <= length && (delivered == 0 || old(reader.position) + delivered <= |reader.data|)
    ensures sink.written == old(sink.written) + Bytes(reader.data, old(reader.position), delivered)
    ensures |sink.written| <= sink.capacity
    ensures match r
            case Ok(_) => delivered == length && (length == 0 || old(reader.CanRead(length)))
            case Err(e) => if e.ReadFailed? then !old(reader.CanRead(length))
                           else e.WriteFailed? && old(|sink.written|) + length > sink.capacity
  {
    hide Bytes;
    var buffer := new byte[COPY_BUFFER_BYTES];
    var remaining := length;
    ghost var start, before := reader.position, sink.written;
    delivered := 0;
    while remaining > 0
      invariant delivered == length - remaining && 0 <= remaining <= length
      invariant reader.position == start + delivered
      invariant delivered > 0 ==> start + delivered <= |reader.data| && start + delivered <= reader.readable
      invariant sink.written == before + Bytes(reader.data, start, delivered)
      invariant |sink.written| <= sink.capacity
    {
      var count := Min(remaining, buffer.Length);
      ghost var accepted;
      r, accepted := CopyChunk(reader, buffer, count, sink);
      BytesGrow(before, reader.data, start, delivered, accepted);
      delivered := delivered + accepted;
      if r.Err? {
        return;
      }
      remaining := remaining - count;
    }
    r := Ok(());
  }

  // ---- Copying evidence from a completed capture ----

  /** The first declared artifact with an ID. */
  function Declared(artifacts: seq<ArtifactRecord>, id: nat): (r: Option<ArtifactRecord>)
    ensures r.Some? ==> IsFirst(artifacts, id, r.value)
    ensures r.None? ==> forall a :: a in artifacts ==> a.id != id
  {
    if artifacts == [] then None
    else if artifacts[0].id == id then
      assert FirstAt(artifacts, id, artifacts[0], 0);
      Some(artifacts[0])
    else
      var r := Declared(artifacts[1..], id);
      assert r.Some? ==> IsFirst(artifacts, id, r.value) by {
        if r.Some? {
          var k: nat :| FirstAt(artifacts[1..], id, r.value, k);
          assert FirstAt(artifacts, id, r.value, k + 1);
        }
      }
      r
  }

  ghost predicate FirstAt(artifacts: seq<ArtifactRecord>, id: nat, a: ArtifactRecord, k: nat) {
    k < |artifacts| && artifacts[k] == a && a.id == id && forall j :: 0 <= j < k ==> artifacts[j].id != id
  }

  ghost predicate IsFirst(artifacts: seq<ArtifactRecord>, id: nat, a: ArtifactRecord) {
    exists k: nat :: FirstAt(artifacts, id, a, k)
  }

  /** The checks that precede a copy: the artifact is declared and the range ends within it. */
  function CopyCheck(m: InstanceManifest, e: EvidenceRange): (r: Result<ArtifactRecord, Failure>)
    ensures r.Ok? ==>
              IsFirst(m.artifacts, e.artifact, r.value) && e.range.start + e.range.length <= r.value.byteLen
    ensures r == Err(UnknownArtifact) <==> forall a :: a in m.artifacts ==> a.id != e.artifact
    ensures r == Err(OutOfRange) <==>
              exists a :: IsFirst(m.artifacts, e.artifact, a) && e.range.start + e.range.length > a.byteLen
    ensures r.Err? ==> r.error.UnknownArtifact? || r.error.OutOfRange?
  {
    var record := Declared(m.artifacts, e.artifact);
    if record.None? then Err(UnknownArtifact)
    else
      assert forall a :: IsFirst(m.artifacts, e.artifact, a) ==> a == record.value by {
        forall a | IsFirst(m.artifacts, e.artifact, a) ensures a == record.value {
          OneFirst(m.artifacts, e.artifact, a, record.value);
        }
      }
      if e.range.End() > record.value.byteLen then Err(OutOfRange)
      else Ok(record.value)
  }

  lemma OneFirst(artifacts: seq<ArtifactRecord>, id: nat, a: ArtifactRecord, b: ArtifactRecord)
    requires IsFirst(artifacts, id, a) && IsFirst(artifacts, id, b)
    ensures a == b && a in artifacts
  {
    var j: nat :| FirstAt(artifacts, id, a, j);
    var k: nat :| FirstAt(artifacts, id, b, k);
    assert j == k;
  }

  /** The files of a capture, by artifact ID. */
  type Files = map<nat, seq<byte>>

  /** Every declared artifact is present with its declared length. */
  ghost predicate FilesMatch(m: InstanceManifest, files: Files) {
    forall a :: a in m.artifacts ==> a.id in files && |files[a.id]| == a.byteLen
  }

  /** Looks at each of the artifacts' files. */
  function HasFiles(artifacts: seq<ArtifactRecord>, files: Files): (ok: bool)
    ensures ok <==> forall a :: a in artifacts ==> a.id in files && |files[a.id]| == a.byteLen
  {
    if artifacts == [] then true
    else
      var last := artifacts[|artifacts| - 1];
      assert artifacts == artifacts[..|artifacts| - 1] + [last];
      last.id in files && |files[last.id]| == last.byteLen && HasFiles(artifacts[..|artifacts| - 1], files)
  }

  /** Copies a range of one declared artifact after validating the capture's files. */
  method CopyEvidence(m: InstanceManifest, files: Files, e: EvidenceRange, readable: nat, sink: Sink)
    returns (r: Result<(), Failure>, ghost delivered: nat)
    requires |sink.written| <= sink.capacity
    modifies sink
    ensures r.Ok? ==> FilesMatch(m, files) && CopyCheck(m, e).Ok? && delivered == e.range.length
    ensures delivered > 0 ==>
              && e.artifact in files && delivered <= e.range.length
              && e.range.start + delivered <= |files[e.artifact]|
    ensures sink.written == old(sink.written) +
              if delivered == 0 then [] else Bytes(files[e.artifact], e.range.start, delivered)
    ensures !FilesMatch(m, files) ==> r == Err(WrongLength)
    ensures FilesMatch(m, files) && CopyCheck(m, e).Err? ==> r == Err(CopyCheck(m, e).error)
    ensures (&& FilesMatch(m, files) && CopyCheck(m, e).Ok?
             && e.range.End() <= readable && old(|sink.written|) + e.range.length <= sink.capacity) ==> r.Ok?
    ensures r == Err(ReadFailed) ==> e.range.start + e.range.length > readable
    ensures r == Err(WriteFailed) ==> old(|sink.written|) + e.range.length > sink.capacity
    ensures FilesMatch(m, files) && CopyCheck(m, e).Ok? && r.Err? ==> r.error.ReadFailed? || r.error.WriteFailed?
  {
    delivered := 0;
    if !HasFiles(m.artifacts, files) {
      return Err(WrongLength), delivered;
    }
    var record := CopyCheck(m, e);
    if record.Err? {
      return Err(record.error), delivered;
    }
    var reader := new FileReader(files[e.artifact], readable, e.range.start);
    r, delivered := CopyBytes(reader, e.range.length, sink);
  }

  // ---- Every queried range can be copied ----

  lemma {:induction false} FirstIsOnly(artifacts: seq<ArtifactRecord>, a: ArtifactRecord)
    requires forall i, j :: 0 <= i < j < |artifacts| ==> artifacts[i].id != artifacts[j].id
    requires a in artifacts
    ensures Declared(artifacts, a.id) == Some(a)
  {
    if artifacts[0] != a {
      var j :| 0 < j < |artifacts| && artifacts[j] == a;
      assert artifacts[1..][j - 1] == a;
      FirstIsOnly(artifacts[1..], a);
    }
  }

  lemma DeclaredOnce(artifacts: seq<ArtifactRecord>, id: nat, kind: ArtifactKind, end: nat)
    requires Distinct(Ids(artifacts)) && Declares(artifacts, id, kind, end)
    ensures Declared(artifacts, id).Some?
    ensures Declared(artifacts, id).value.kind == kind && end <= Declared(artifacts, id).value.byteLen
  {
    var a :| a in artifacts && a.id == id && a.kind == kind && end <= a.byteLen;
    forall i, j | 0 <= i < j < |artifacts| ensures artifacts[i].id != artifacts[j].id {
      assert Ids(artifacts)[i] != Ids(artifacts)[j];
    }
    FirstIsOnly(artifacts, a);
  }

  /** A source range that a query returns passes the copy's checks. */
  lemma SourceEvidenceIsCopyable(m: InstanceManifest, ordinal: nat)
    requires ValidManifest(m)
    ensures match SourceEvidence(m, ordinal)
            case Ok(Ok(e)) => CopyCheck(m, e).Ok? && CopyCheck(m, e).value.kind.SourceText?
            case _ => true
  {
    hide ValidLlvm, Declares;
    if ordinal < |m.instances| && m.instances[ordinal].source.Available? {
      var source := m.instances[ordinal].source.source;
      assert SourceDeclared(m.instances[ordinal], m.artifacts);
      DeclaredOnce(m.artifacts, source.artifact, SourceText, source.range.End());
    }
  }

  lemma BodyIsDeclared(m: InstanceManifest, mod: LlvmModuleRecord, symbol: Name, body: LlvmBody)
    requires ValidManifest(m) && m.llvm.Collected? && mod in m.llvm.modules
    requires BodyIn(mod, symbol) == Some(body)
    ensures Declares(m.artifacts, body.evidence.artifact, LlvmText, body.evidence.range.End())
  {
    assert ModuleFits(mod, m.artifacts, m.provenance.lto);
    hide Declares, Valid, ValidLlvm, Queries.BySymbol, Aliases.Walk;
    var d := ResolutionOf(mod, symbol).definition;
    assert Aliases.Resolves(Queries.BySymbol(mod.definitions), symbol, ResolutionOf(mod, symbol));
    assert d in mod.definitions;
  }

  /** Every LLVM body that a query returns passes the copy's checks. */
  lemma LlvmEvidenceIsCopyable(m: InstanceManifest, symbol: Name, body: LlvmBody)
    requires ValidManifest(m) && m.llvm.Collected?
    requires var found := Selected(m.llvm.modules, symbol); found.Bodies? && body in found.bodies
    ensures CopyCheck(m, body.evidence).Ok? && CopyCheck(m, body.evidence).value.kind.LlvmText?
  {
    hide Declares, ValidLlvm, BodyIn, BodiesIn;
    var modules := m.llvm.modules;
    var bodies := BodiesIn(modules, symbol, |modules|);
    Sorting.SameMembers(Sorting.Sort(BodyLeq, bodies), bodies);
    BodyMembers(modules, symbol, body);
    var mod :| mod in modules && BodyIn(mod, symbol) == Some(body);
    BodyIsDeclared(m, mod, symbol, body);
    DeclaredOnce(m.artifacts, body.evidence.artifact, LlvmText, body.evidence.range.End());
  }
}
