/** The capture store: what each publication leaves behind, however it ends, and what reads see. */
module Stores {
  import opened Base
  import opened Records
  import Copies
  import Manifests
  import RecordIo

  const MAX_HEADER_BYTES: nat := 1024 * 1024
  const MAX_INSTANCES_BYTES: nat := 128 * 1024 * 1024
  const POINTER_VERSION: nat := 1

  datatype Analysis = Analysis(requestKey: Name, token: Name, artifact: Name)

  datatype CaptureRecord = CaptureRecord(id: Name, completedAt: nat, analysis: Analysis)

  /** A durable association between a request, a compilation and a capture. */
  datatype Pointer = Pointer(formatVersion: nat, requestKey: Name, token: Name, captureId: Name)

  function PointerTo(capture: CaptureRecord): Pointer {
    Pointer(POINTER_VERSION, capture.analysis.requestKey, capture.analysis.token, capture.id)
  }

  /** A record and the pieces of text that its serializer emits. */
  datatype Encoded<T> = Encoded(record: T, pieces: seq<seq<byte>>)

  /** A record's file: not created, incomplete, or one whole line of the given length. */
  datatype RecordFile<T> = Absent | Partial | Written(record: T, length: nat)

  datatype Directory = Directory(
    header: RecordFile<CaptureRecord>,
    instances: RecordFile<InstanceManifest>,
    artifacts: Copies.Files,
    pointer: RecordFile<Pointer>)

  const EMPTY: Directory := Directory(Absent, Absent, map[], Absent)

  /** The three namespaces: by capture ID, by capture ID, and by request key. */
  datatype State = State(
    staging: map<Name, Directory>,
    captures: map<Name, Directory>,
    candidates: map<Name, RecordFile<Pointer>>)

  /** The arguments of one publication: records, their encodings, and the directory of artifacts. */
  datatype Publication = Publication(
    capture: Encoded<CaptureRecord>,
    instances: Encoded<InstanceManifest>,
    pointer: seq<seq<byte>>,
    inputs: Copies.Files)
  {
    function Id(): Name {
      capture.record.id
    }

    function Key(): Name {
      capture.record.analysis.requestKey
    }
  }

  datatype Failure =
    | MismatchedIds
    | CaptureExists
    | StagingExists
    | CaptureNotFound
    | InvalidCandidate
    | TooLarge
    | Malformed
    | Artifacts
    | Filesystem

  // ---- The effect of a publication ----

  predicate Fits(pieces: seq<seq<byte>>, limit: nat) {
    |RecordIo.Line(pieces)| <= limit
  }

  function FileOf<T>(e: Encoded<T>): RecordFile<T> {
    Written(e.record, |RecordIo.Line(e.pieces)|)
  }

  function PointerFile(p: Publication): RecordFile<Pointer> {
    FileOf(Encoded(PointerTo(p.capture.record), p.pointer))
  }

  /** The declared artifacts' bytes. */
  function Declared(m: InstanceManifest, inputs: Copies.Files): (files: Copies.Files)
    ensures forall id :: id in files <==> id in inputs && id in Manifests.Ids(m.artifacts)
    ensures forall id :: id in files ==> files[id] == inputs[id]
  {
    map id | id in inputs && id in Manifests.Ids(m.artifacts) :: inputs[id]
  }

  /** A completed capture's directory. */
  function Contents(p: Publication): Directory {
    Directory(FileOf(p.capture), FileOf(p.instances), Declared(p.instances.record, p.inputs), Absent)
  }

  /** The artifacts can be copied: each exists with its declared length, and no ID repeats. */
  ghost predicate Copyable(m: InstanceManifest, inputs: Copies.Files) {
    Copies.FilesMatch(m, inputs) && Distinct(Manifests.Ids(m.artifacts))
  }

  /** Publication can start: the IDs agree and nothing has this ID. */
  predicate CanStage(s: State, p: Publication) {
    p.Id() == p.instances.record.captureId && p.Id() !in s.captures && p.Id() !in s.staging
  }

  ghost predicate CanComplete(p: Publication) {
    && Fits(p.capture.pieces, MAX_HEADER_BYTES)
    && Fits(p.instances.pieces, MAX_INSTANCES_BYTES)
    && Fits(p.pointer, MAX_HEADER_BYTES)
    && Copyable(p.instances.record, p.inputs)
  }

  /** How far a publication got. Before pointer replacement its staging directory can hold anything. */
  datatype Reached = Nothing | Staged(left: Directory) | Replaced | Committed

  ghost predicate Allowed(s: State, p: Publication, reached: Reached) {
    && (!reached.Nothing? ==> CanStage(s, p))
    && (reached.Replaced? || reached.Committed? ==> CanComplete(p))
  }

  /** Why a publication fails when nothing else does. */
  ghost function Refusal(s: State, p: Publication): (r: Option<Failure>)
    ensures r.None? <==> CanStage(s, p) && CanComplete(p)
  {
    if p.Id() != p.instances.record.captureId then Some(MismatchedIds)
    else if p.Id() in s.captures then Some(CaptureExists)
    else if p.Id() in s.staging then Some(StagingExists)
    else Incomplete(p)
  }

  ghost function Incomplete(p: Publication): (r: Option<Failure>)
    ensures r.None? <==> CanComplete(p)
  {
    if !Fits(p.capture.pieces, MAX_HEADER_BYTES) || !Fits(p.instances.pieces, MAX_INSTANCES_BYTES) then Some(TooLarge)
    else if !Copyable(p.instances.record, p.inputs) then Some(Artifacts)
    else if !Fits(p.pointer, MAX_HEADER_BYTES) then Some(TooLarge)
    else None
  }

  /** The points before which a publication can be interrupted. */
  datatype Boundary =
    | Initialize | StagingCreate | CaptureWrite | InstancesWrite
    | ArtifactCopy | PointerWrite | PointerReplace | CaptureRename

  /** What goes wrong: an interruption, files that fill up, and files that stop being readable. */
  datatype Faults = Faults(stop: Option<Boundary>, capacity: nat, readable: nat)

  /** Every file has room, and every input can be read. */
  ghost predicate Ample(p: Publication, faults: Faults) {
    && |RecordIo.Line(p.capture.pieces)| <= faults.capacity
    && |RecordIo.Line(p.instances.pieces)| <= faults.capacity
    && |RecordIo.Line(p.pointer)| <= faults.capacity
    && Transfers(p.inputs, faults)
  }

  ghost predicate Transfers(inputs: Copies.Files, faults: Faults) {
    forall id :: id in inputs ==> |inputs[id]| <= faults.capacity && |inputs[id]| <= faults.readable
  }

  predicate BeforeReplacement(stop: Option<Boundary>) {
    stop.Some? && !stop.value.CaptureRename?
  }

  ghost predicate Reports(r: Result<(), Failure>, refusal: Option<Failure>) {
    r == if refusal.None? then Ok(()) else Err(refusal.value)
  }

  function WithStaging(s: State, id: Name, d: Directory): State {
    s.(staging := s.staging[id := d])
  }

  function After(s: State, p: Publication, reached: Reached): State {
    match reached
    case Nothing => s
    case Staged(left) => WithStaging(s, p.Id(), left)
    case Replaced =>
      s.(staging := s.staging[p.Id() := Contents(p)], candidates := s.candidates[p.Key() := PointerFile(p)])
    case Committed =>
      s.(captures := s.captures[p.Id() := Contents(p)], candidates := s.candidates[p.Key() := PointerFile(p)])
  }

  // ---- Reads ----

  function ReadRecord<T>(file: RecordFile<T>, limit: nat): Result<T, Failure> {
    match file
    case Absent => Err(Filesystem)
    case Partial => Err(Malformed)
    case Written(record, length) => if length > limit then Err(TooLarge) else Ok(record)
  }

  function Check(condition: bool, failure: Failure): Result<(), Failure> {
    if condition then Ok(()) else Err(failure)
  }

  function ReadHeader(d: Directory, id: Name): Result<CaptureRecord, Failure> {
    var capture :- ReadRecord(d.header, MAX_HEADER_BYTES);
    var _ :- Check(capture.id == id, MismatchedIds);
    Ok(capture)
  }

  /** Deserializes the manifest, checks its scope, and checks every declared artifact's file. */
  function ReadEvidence(d: Directory, id: Name): Result<InstanceManifest, Failure> {
    var m :- ReadRecord(d.instances, MAX_INSTANCES_BYTES);
    var _ :- Check(m.captureId == id, MismatchedIds);
    var _ :- Check(Copies.HasFiles(m.artifacts, d.artifacts), Artifacts);
    Ok(m)
  }

  function ReadCapture(s: State, id: Name): Result<CaptureRecord, Failure> {
    var _ :- Check(id in s.captures, CaptureNotFound);
    var capture :- ReadHeader(s.captures[id], id);
    var _ :- Check(!s.captures[id].instances.Absent?, Filesystem);
    Ok(capture)
  }

  function ReadInstances(s: State, id: Name): Result<InstanceManifest, Failure> {
    var _ :- Check(id in s.captures, CaptureNotFound);
    var _ :- ReadHeader(s.captures[id], id);
    ReadEvidence(s.captures[id], id)
  }

  /** The request's pointer file is there, whatever it holds. */
  predicate HasPointer(s: State, key: Name) {
    key in s.candidates && !s.candidates[key].Absent?
  }

  /** The candidate of a request. Only absent pointers and absent captures are misses. */
  function ReadCandidate(s: State, key: Name): Result<Option<(CaptureRecord, InstanceManifest)>, Failure> {
    if !HasPointer(s, key) then Ok(None)
    else
      var pointer :- ReadRecord(s.candidates[key], MAX_HEADER_BYTES);
      var _ :- Check(pointer.formatVersion == POINTER_VERSION, InvalidCandidate);
      var _ :- Check(pointer.requestKey == key, InvalidCandidate);
      var id := pointer.captureId;
      if id !in s.captures then Ok(None)
      else
        var capture :- ReadHeader(s.captures[id], id);
        var _ :- Check(capture.analysis.requestKey == key, InvalidCandidate);
        var _ :- Check(capture.analysis.token == pointer.token, InvalidCandidate);
        var m :- ReadEvidence(s.captures[id], id);
        Ok(Some((capture, m)))
  }

  // ---- The steps of a publication ----

  /** Writes one new record file, through the bounded writer. */
  method WriteRecord<T>(e: Encoded<T>, limit: nat, capacity: nat) returns (file: RecordFile<T>, r: Result<(), Failure>)
    requires limit < U64_MAX
    ensures r.Ok? ==> file == FileOf(e) && Fits(e.pieces, limit)
    ensures r.Err? ==> file == Partial
    ensures |RecordIo.Line(e.pieces)| <= capacity ==> r == Check(Fits(e.pieces, limit), TooLarge)
  {
    var disk := new RecordIo.BufferedFile(capacity);
    var written := RecordIo.WriteRecord(disk, e.pieces, limit);
    match written {
      case Ok(_) => file, r := Written(e.record, |disk.file|), Ok(());
      case Err(e) => file, r := Partial, Err(if e.TooLarge? then TooLarge else Filesystem);
    }
  }

  /** Copies one artifact file chunk by chunk into a new file. */
  method CopyArtifact(bytes: seq<byte>, faults: Faults) returns (copied: seq<byte>, ok: bool)
    ensures copied <= bytes && (ok ==> copied == bytes)
    ensures |bytes| <= faults.capacity && |bytes| <= faults.readable ==> ok
  {
    var reader := new Copies.FileReader(bytes, faults.readable, 0);
    var sink := new Copies.Sink(faults.capacity);
    var r, delivered := Copies.CopyBytes(reader, |bytes|, sink);
    ok, copied := r.Ok?, sink.written;
  }

  /** The IDs of the first `n` artifacts are copied, and nothing else. */
  ghost predicate CopiedSoFar(m: InstanceManifest, inputs: Copies.Files, files: Copies.Files, n: nat)
    requires n <= |m.artifacts|
  {
    && (forall id :: id in files <==> exists k :: 0 <= k < n && m.artifacts[k].id == id)
    && (forall id :: id in files ==> id in inputs && files[id] == inputs[id])
    && (forall k :: 0 <= k < n ==> m.artifacts[k].id in inputs && |inputs[m.artifacts[k].id]| == m.artifacts[k].byteLen)
    && (forall j, k :: 0 <= j < k < n ==> m.artifacts[j].id != m.artifacts[k].id)
  }

  lemma CopiedNone(m: InstanceManifest, inputs: Copies.Files)
    ensures CopiedSoFar(m, inputs, map[], 0)
  {
  }

  lemma CopiedOneMore(m: InstanceManifest, inputs: Copies.Files, files: Copies.Files, n: nat)
    requires n < |m.artifacts| && CopiedSoFar(m, inputs, files, n)
    requires var a := m.artifacts[n]; a.id !in files && a.id in inputs && |inputs[a.id]| == a.byteLen
    ensures var a := m.artifacts[n]; CopiedSoFar(m, inputs, files[a.id := inputs[a.id]], n + 1)
  {
    var a := m.artifacts[n];
    var more := files[a.id := inputs[a.id]];
    forall id ensures id in more <==> exists k :: 0 <= k < n + 1 && m.artifacts[k].id == id {
      if id in files {
        var k :| 0 <= k < n && m.artifacts[k].id == id;
      }
    }
  }

  lemma CopiedBefore(m: InstanceManifest, inputs: Copies.Files, files: Copies.Files, n: nat)
    requires n < |m.artifacts| && CopiedSoFar(m, inputs, files, n) && m.artifacts[n].id in files
    ensures !Distinct(Manifests.Ids(m.artifacts))
  {
    var k :| 0 <= k < n && m.artifacts[k].id == m.artifacts[n].id;
    assert Manifests.Ids(m.artifacts)[k] == Manifests.Ids(m.artifacts)[n];
  }

  lemma CopiedAll(m: InstanceManifest, inputs: Copies.Files, files: Copies.Files)
    requires CopiedSoFar(m, inputs, files, |m.artifacts|)
    ensures Copyable(m, inputs) && files == Declared(m, inputs) && Copies.FilesMatch(m, files)
  {
    forall id ensures id in files <==> id in Manifests.Ids(m.artifacts) {
      if id in files {
        var k :| 0 <= k < |m.artifacts| && m.artifacts[k].id == id;
        assert Manifests.Ids(m.artifacts)[k] == id;
      }
      if id in Manifests.Ids(m.artifacts) {
        var k :| 0 <= k < |m.artifacts| && Manifests.Ids(m.artifacts)[k] == id;
        assert m.artifacts[k].id == id;
      }
    }
  }

  /** Copies the declared artifacts, each into a file that must not exist, and then checks them. */
  method CopyArtifacts(inputs: Copies.Files, m: InstanceManifest, faults: Faults)
    returns (files: Copies.Files, ok: bool)
    ensures ok ==> Copyable(m, inputs) && files == Declared(m, inputs)
    ensures Transfers(inputs, faults) ==> (ok <==> Copyable(m, inputs))
  {
    hide CopiedSoFar, Distinct, Declared;
    files, ok := map[], true;
    CopiedNone(m, inputs);
    for i := 0 to |m.artifacts|
      invariant ok && CopiedSoFar(m, inputs, files, i)
    {
      var a := m.artifacts[i];
      if a.id !in inputs || |inputs[a.id]| != a.byteLen {
        assert a in m.artifacts;
        return files, false;
      }
      if a.id in files {
        CopiedBefore(m, inputs, files, i);
        return files, false;
      }
      var copied;
      copied, ok := CopyArtifact(inputs[a.id], faults);
      CopiedOneMore(m, inputs, files, i);
      files := files[a.id := copied];
      if !ok {
        return;
      }
    }
    CopiedAll(m, inputs, files);
    ok := Copies.HasFiles(m.artifacts, files);
  }

  class Store {
    var staging: map<Name, Directory>
    var captures: map<Name, Directory>
    var candidates: map<Name, RecordFile<Pointer>>

    constructor ()
      ensures Current() == State(map[], map[], map[])
    {
      staging, captures, candidates := map[], map[], map[];
    }

    function Current(): State
      reads this
    {
      State(staging, captures, candidates)
    }

    /** Changes the contents of one staging directory. */
    method Put(id: Name, d: Directory, ghost before: State)
      requires Current() == before || exists x :: Current() == WithStaging(before, id, x)
      modifies this
      ensures Current() == WithStaging(before, id, d)
    {
      staging := staging[id := d];
      assert staging == before.staging[id := d];
    }

    /** Fills a new staging directory with everything that a capture needs, and its pointer. */
    method Stage(p: Publication, faults: Faults) returns (r: Result<(), Failure>, ghost left: Directory)
      modifies this
      ensures Current() == WithStaging(old(Current()), p.Id(), left)
      ensures r.Ok? ==> CanComplete(p) && left == Contents(p).(pointer := PointerFile(p))
      ensures Ample(p, faults) && faults.stop in {None, Some(CaptureRename), Some(PointerReplace)} ==>
                Reports(r, Incomplete(p))
    {
      hide Fits, Copyable, FileOf, Declared, Transfers;
      Put(p.Id(), EMPTY, old(Current()));
      left := EMPTY;
      if faults.stop == Some(CaptureWrite) {
        return Err(Filesystem), left;
      }
      var header;
      header, r := WriteRecord(p.capture, MAX_HEADER_BYTES, faults.capacity);
      left := left.(header := header);
      Put(p.Id(), EMPTY.(header := header), old(Current()));
      if r.Err? {
        return;
      }
      if faults.stop == Some(InstancesWrite) {
        return Err(Filesystem), left;
      }
      var instances;
      instances, r := WriteRecord(p.instances, MAX_INSTANCES_BYTES, faults.capacity);
      left := left.(instances := instances);
      Put(p.Id(), EMPTY.(header := header, instances := instances), old(Current()));
      if r.Err? {
        return;
      }
      if faults.stop == Some(ArtifactCopy) {
        return Err(Filesystem), left;
      }
      var artifacts, copied := CopyArtifacts(p.inputs, p.instances.record, faults);
      left := left.(artifacts := artifacts);
      Put(p.Id(), Directory(header, instances, artifacts, Absent), old(Current()));
      if !copied {
        return Err(Artifacts), left;
      }
      if faults.stop == Some(PointerWrite) {
        return Err(Filesystem), left;
      }
      var pointer;
      pointer, r := WriteRecord(Encoded(PointerTo(p.capture.record), p.pointer), MAX_HEADER_BYTES, faults.capacity);
      left := left.(pointer := pointer);
      Put(p.Id(), Directory(header, instances, artifacts, pointer), old(Current()));
    }

    /**
     Publishes one capture: stages everything, replaces the candidate pointer, and renames the
     staging directory. `reached` says how far it got, and that alone decides the new state. With
     room on the disk, the outcome is the first refusal that applies, and otherwise success; an
     interruption at either of the last two steps stops exactly there.
     */
    method Publish(p: Publication, faults: Faults) returns (r: Result<(), Failure>, ghost reached: Reached)
      modifies this
      ensures Allowed(old(Current()), p, reached) && Current() == After(old(Current()), p, reached)
      ensures r.Ok? <==> reached.Committed?
      ensures Ample(p, faults) && faults.stop.None? ==> Reports(r, Refusal(old(Current()), p))
      ensures faults.stop.Some? && faults.stop != Some(CaptureRename) ==> reached.Nothing? || reached.Staged?
      ensures Ample(p, faults) && Refusal(old(Current()), p).None? ==>
                && (faults.stop == Some(PointerReplace) ==> reached == Staged(Contents(p).(pointer := PointerFile(p))))
                && (faults.stop == Some(CaptureRename) ==> reached == Replaced)
    {
      hide Ample;
      reached := Nothing;
      if p.Id() != p.instances.record.captureId {
        return Err(MismatchedIds), reached;
      }
      if faults.stop == Some(Initialize) {
        return Err(Filesystem), reached;
      }
      if p.Id() in captures {
        return Err(CaptureExists), reached;
      }
      if faults.stop == Some(StagingCreate) {
        return Err(Filesystem), reached;
      }
      if p.Id() in staging {
        return Err(StagingExists), reached;
      }
      ghost var left;
      r, left := Stage(p, faults);
      reached := Staged(left);
      if r.Err? {
        return;
      }
      if BeforeReplacement(faults.stop) {
        return Err(Filesystem), reached;
      }
      var d := staging[p.Id()];
      candidates := candidates[p.Key() := d.pointer];
      staging := staging[p.Id() := d.(pointer := Absent)];
      reached := Replaced;
      if faults.stop == Some(CaptureRename) {
        return Err(Filesystem), reached;
      }
      captures := captures[p.Id() := staging[p.Id()]];
      staging := staging - {p.Id()};
      reached := Committed;
      assert staging == old(staging);
      r := Ok(());
    }
  }
}
