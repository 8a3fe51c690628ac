/** What every run of publication attempts keeps, wherever each attempt stops. */
module Histories {
  import opened Base
  import opened Records
  import opened Stores
  import Copies
  import Manifests

  const START: State := State(map[], map[], map[])

  datatype Attempt = Attempt(publication: Publication, reached: Reached)

  /** The store after the first `n` attempts. */
  function Run(attempts: seq<Attempt>, n: nat): State
    requires n <= |attempts|
  {
    if n == 0 then START
    else After(Run(attempts, n - 1), attempts[n - 1].publication, attempts[n - 1].reached)
  }

  /** Each attempt can end as recorded, in the state that the attempts before it left. */
  ghost predicate Possible(attempts: seq<Attempt>) {
    forall i :: 0 <= i < |attempts| ==> Allowed(Run(attempts, i), attempts[i].publication, attempts[i].reached)
  }

  lemma RunStarts(attempts: seq<Attempt>)
    ensures Run(attempts, 0) == START
  {
  }

  lemma LastStep(attempts: seq<Attempt>, n: nat)
    requires Possible(attempts) && 0 < n <= |attempts|
    ensures var s, last := Run(attempts, n - 1), attempts[n - 1];
            Allowed(s, last.publication, last.reached) && Run(attempts, n) == After(s, last.publication, last.reached)
  {
    hide Allowed, After;
  }

  /** What one attempt does to the directories of one ID. */
  lemma OneStep(s: State, p: Publication, reached: Reached, id: Name)
    requires Allowed(s, p, reached)
    ensures var after := After(s, p, reached);
            && (id in s.captures ==> id in after.captures && after.captures[id] == s.captures[id])
            && (id in after.captures ==> id in s.captures || (reached.Committed? && p.Id() == id))
            && (reached.Committed? && p.Id() == id ==>
                  id !in s.captures && id in after.captures && after.captures[id] == Contents(p))
            && (id in s.staging ==> id in after.staging && (id !in s.captures ==> id !in after.captures))
  {
    hide Contents, CanComplete;
  }

  // ---- The invariant ----

  /** Header, manifest and artifacts are all present and agree, and nothing else is. */
  ghost predicate Whole(id: Name, d: Directory) {
    && d.header.Written? && d.header.length <= MAX_HEADER_BYTES && d.header.record.id == id
    && d.instances.Written? && d.instances.length <= MAX_INSTANCES_BYTES && d.instances.record.captureId == id
    && Copies.FilesMatch(d.instances.record, d.artifacts)
    && (forall a :: a in d.artifacts ==> a in Manifests.Ids(d.instances.record.artifacts))
    && d.pointer.Absent?
  }

  /** A pointer names a completed capture with its key and token, or an ID that staging blocks. */
  ghost predicate Holds(s: State, key: Name, file: RecordFile<Pointer>) {
    && file.Written? && file.length <= MAX_HEADER_BYTES
    && file.record.formatVersion == POINTER_VERSION && file.record.requestKey == key
    && if file.record.captureId in s.captures then
         var header := s.captures[file.record.captureId].header;
         header.Written? && header.record.analysis.requestKey == key
         && header.record.analysis.token == file.record.token
       else
         file.record.captureId in s.staging
  }

  ghost predicate Consistent(s: State) {
    && s.captures.Keys !! s.staging.Keys
    && (forall id :: id in s.captures ==> Whole(id, s.captures[id]))
    && (forall key :: key in s.candidates ==> Holds(s, key, s.candidates[key]))
  }

  lemma ContentsAreWhole(p: Publication)
    requires CanComplete(p) && p.Id() == p.instances.record.captureId
    ensures Whole(p.Id(), Contents(p))
  {
    var m := p.instances.record;
    forall a | a in m.artifacts ensures a.id in Declared(m, p.inputs) {
      var k :| 0 <= k < |m.artifacts| && m.artifacts[k] == a;
      assert Manifests.Ids(m.artifacts)[k] == a.id;
    }
  }

  lemma PublicationKeepsConsistency(s: State, p: Publication, reached: Reached)
    requires Consistent(s) && Allowed(s, p, reached)
    ensures Consistent(After(s, p, reached))
  {
    hide Whole, Contents, Copyable, Fits;
    var after := After(s, p, reached);
    if reached.Replaced? || reached.Committed? {
      PointerHolds(s, p, reached);
    }
    if reached.Committed? {
      ContentsAreWhole(p);
    }
    forall key | key in s.candidates ensures key in after.candidates && Holds(after, key, after.candidates[key]) {
      assert Holds(s, key, s.candidates[key]);
    }
  }

  lemma PointerHolds(s: State, p: Publication, reached: Reached)
    requires Allowed(s, p, reached) && (reached.Replaced? || reached.Committed?)
    ensures Holds(After(s, p, reached), p.Key(), PointerFile(p))
  {
    hide Copyable;
  }

  lemma {:induction false} EveryRunIsConsistent(attempts: seq<Attempt>, n: nat)
    requires Possible(attempts) && n <= |attempts|
    ensures Consistent(Run(attempts, n))
  {
    if n > 0 {
      hide Consistent;
      EveryRunIsConsistent(attempts, n - 1);
      PublicationKeepsConsistency(Run(attempts, n - 1), attempts[n - 1].publication, attempts[n - 1].reached);
    } else {
      assert START.captures == map[];
    }
  }

  // ---- Completed captures ----

  /** Attempt `i` is the publication that completed the capture. */
  ghost predicate Completes(attempts: seq<Attempt>, i: nat, id: Name) {
    i < |attempts| && attempts[i].reached.Committed? && attempts[i].publication.Id() == id
  }

  /** The completed captures are exactly those of committed attempts, with what these published. */
  lemma {:induction false} CapturesAreCommitted(attempts: seq<Attempt>, n: nat, id: Name)
    requires Possible(attempts) && n <= |attempts|
    ensures id in Run(attempts, n).captures <==> exists i: nat :: i < n && Completes(attempts, i, id)
    ensures forall i: nat :: i < n && Completes(attempts, i, id) ==>
              id in Run(attempts, n).captures && Run(attempts, n).captures[id] == Contents(attempts[i].publication)
  {
    hide Contents, Allowed, After, Possible;
    if n > 0 {
      var last := attempts[n - 1];
      CapturesAreCommitted(attempts, n - 1, id);
      LastStep(attempts, n);
      OneStep(Run(attempts, n - 1), last.publication, last.reached, id);
      if last.reached.Committed? && last.publication.Id() == id {
        assert Completes(attempts, n - 1, id);
      }
    }
  }

  /** Completed captures never change and never go away. */
  lemma {:induction false} CapturesOnlyGrow(attempts: seq<Attempt>, i: nat, n: nat, id: Name)
    requires Possible(attempts) && i <= n <= |attempts| && id in Run(attempts, i).captures
    ensures id in Run(attempts, n).captures && Run(attempts, n).captures[id] == Run(attempts, i).captures[id]
    decreases n - i
  {
    hide Run, Allowed, After, Possible;
    if i < n {
      CapturesOnlyGrow(attempts, i, n - 1, id);
      LastStep(attempts, n);
      OneStep(Run(attempts, n - 1), attempts[n - 1].publication, attempts[n - 1].reached, id);
    }
  }

  /** Once published, a capture and its evidence are read back unchanged forever. */
  lemma CommittedIsReadable(attempts: seq<Attempt>, i: nat, n: nat)
    requires Possible(attempts) && i < n <= |attempts| && attempts[i].reached.Committed?
    ensures var p := attempts[i].publication;
            && ReadCapture(Run(attempts, n), p.Id()) == Ok(p.capture.record)
            && ReadInstances(Run(attempts, n), p.Id()) == Ok(p.instances.record)
            && Run(attempts, n).captures[p.Id()].artifacts == Declared(p.instances.record, p.inputs)
  {
    var p := attempts[i].publication;
    assert Allowed(Run(attempts, i), p, attempts[i].reached);
    assert Completes(attempts, i, p.Id());
    CapturesAreCommitted(attempts, n, p.Id());
    ContentsAreWhole(p);
    hide Whole, Allowed, Possible, Declared;
  }

  ghost predicate Dangles(s: State, key: Name) {
    key in s.candidates && s.candidates[key].Written? && s.candidates[key].record.captureId !in s.captures
  }

  /** A pointer that names no capture never gains one: its ID can never be published. */
  lemma {:induction false} DanglingForever(attempts: seq<Attempt>, i: nat, n: nat, key: Name)
    requires Possible(attempts) && i <= n <= |attempts|
    requires Dangles(Run(attempts, i), key)
    ensures var id := Run(attempts, i).candidates[key].record.captureId;
            id in Run(attempts, n).staging && id !in Run(attempts, n).captures
    decreases n - i
  {
    hide Run, Allowed, After, Possible;
    if i == n {
      EveryRunIsConsistent(attempts, n);
      assert Holds(Run(attempts, n), key, Run(attempts, n).candidates[key]);
    } else {
      DanglingForever(attempts, i, n - 1, key);
      LastStep(attempts, n);
      var id := Run(attempts, i).candidates[key].record.captureId;
      OneStep(Run(attempts, n - 1), attempts[n - 1].publication, attempts[n - 1].reached, id);
    }
  }

  // ---- Candidates ----

  /** The pointer's own checks: it is readable, of this format, and for this request. */
  ghost predicate ValidPointer(s: State, key: Name) {
    && key in s.candidates && s.candidates[key].Written? && s.candidates[key].length <= 1024 * 1024
    && s.candidates[key].record.formatVersion == 1 && s.candidates[key].record.requestKey == key
  }

  /** The directory's header is a readable line that holds this record under this ID. */
  ghost predicate HoldsHeader(d: Directory, id: Name, capture: CaptureRecord) {
    d.header.Written? && d.header.length <= 1024 * 1024 && d.header.record == capture && capture.id == id
  }

  /** The directory's manifest is a readable line with this ID, and its artifacts' files have their lengths. */
  ghost predicate HoldsManifest(d: Directory, id: Name, m: InstanceManifest) {
    && d.instances.Written? && d.instances.length <= 128 * 1024 * 1024 && d.instances.record == m
    && m.captureId == id
    && forall a :: a in m.artifacts ==> a.id in d.artifacts && |d.artifacts[a.id]| == a.byteLen
  }

  /** In any store, each record is read exactly if it is there, in full, and under its own ID. */
  lemma ReadsAreChecked(s: State, id: Name, capture: CaptureRecord, m: InstanceManifest)
    ensures ReadCapture(s, id) == Ok(capture) <==>
              id in s.captures && HoldsHeader(s.captures[id], id, capture) && s.captures[id].instances != Absent
    ensures ReadInstances(s, id) == Ok(m) <==>
              && id in s.captures && HoldsManifest(s.captures[id], id, m)
              && exists c :: HoldsHeader(s.captures[id], id, c)
    ensures id !in s.captures ==>
              ReadCapture(s, id) == Err(CaptureNotFound) && ReadInstances(s, id) == Err(CaptureNotFound)
  {
    hide Copies.FilesMatch;
    if id in s.captures && ReadInstances(s, id) == Ok(m) {
      assert HoldsHeader(s.captures[id], id, s.captures[id].header.record);
    }
  }

  /**
   In any store, however damaged, only an absent pointer or an absent capture is a miss, and evidence
   is returned exactly when pointer, header, manifest and artifacts all agree. The rest is an error.
   */
  lemma CandidateIsChecked(s: State, key: Name, capture: CaptureRecord, m: InstanceManifest)
    ensures ReadCandidate(s, key) == Ok(None) <==>
              || key !in s.candidates || s.candidates[key] == Absent
              || (ValidPointer(s, key) && s.candidates[key].record.captureId !in s.captures)
    ensures ReadCandidate(s, key) == Ok(Some((capture, m))) <==>
              && ValidPointer(s, key)
              && var pointer := s.candidates[key].record;
              && pointer.captureId in s.captures
              && HoldsHeader(s.captures[pointer.captureId], pointer.captureId, capture)
              && HoldsManifest(s.captures[pointer.captureId], pointer.captureId, m)
              && capture.analysis.requestKey == key && capture.analysis.token == pointer.token
    ensures ReadCandidate(s, key) == Err(InvalidCandidate) <==>
              && key in s.candidates && s.candidates[key].Written? && s.candidates[key].length <= 1024 * 1024
              && (ValidPointer(s, key) ==> NamesAnother(s, key, s.candidates[key].record))
  {
    hide Copies.FilesMatch;
    if ReadCandidate(s, key) == Err(InvalidCandidate) && ValidPointer(s, key) {
      var id := s.candidates[key].record.captureId;
      assert HoldsHeader(s.captures[id], id, s.captures[id].header.record);
    }
  }

  /** The named capture is of another request or compilation. */
  ghost predicate NamesAnother(s: State, key: Name, pointer: Pointer) {
    && pointer.captureId in s.captures
    && exists c :: HoldsHeader(s.captures[pointer.captureId], pointer.captureId, c)
                   && (c.analysis.requestKey != key || c.analysis.token != pointer.token)
  }

  ghost function Evidence(s: State, id: Name): Option<(CaptureRecord, InstanceManifest)>
    requires Consistent(s)
  {
    if id !in s.captures then None
    else
      assert Whole(id, s.captures[id]);
      Some((s.captures[id].header.record, s.captures[id].instances.record))
  }

  lemma CandidateIsPresent(s: State, key: Name)
    requires Consistent(s) && key in s.candidates
    ensures s.candidates[key].Written? && ReadCandidate(s, key) == Ok(Evidence(s, s.candidates[key].record.captureId))
  {
    assert Holds(s, key, s.candidates[key]);
    var id := s.candidates[key].record.captureId;
    if id in s.captures {
      assert Whole(id, s.captures[id]);
    }
  }

  /**
   The effect of one attempt on every request. Before pointer replacement nothing changes. After
   it exactly the attempt's own key becomes a miss, and a commit makes exactly that key a hit.
   */
  lemma PublicationEffect(s: State, p: Publication, reached: Reached, key: Name)
    requires Consistent(s) && Allowed(s, p, reached)
    ensures ReadCandidate(After(s, p, reached), key) ==
            if key != p.Key() || reached.Nothing? || reached.Staged? then ReadCandidate(s, key)
            else if reached.Replaced? then Ok(None)
            else Ok(Some((p.capture.record, p.instances.record)))
  {
    var after := After(s, p, reached);
    PublicationKeepsConsistency(s, p, reached);
    hide ReadCandidate, Whole, CanComplete;
    if key in s.candidates {
      CandidateIsPresent(s, key);
      assert Holds(s, key, s.candidates[key]);
    }
    if key in after.candidates {
      CandidateIsPresent(after, key);
    } else {
      CandidateIsAbsent(s, key);
      CandidateIsAbsent(after, key);
    }
  }

  lemma CandidateIsAbsent(s: State, key: Name)
    requires key !in s.candidates
    ensures ReadCandidate(s, key) == Ok(None)
  {
  }

  /** The last of the first `n` attempts that replaced the pointer of a request. */
  function Latest(attempts: seq<Attempt>, n: nat, key: Name): Option<Attempt>
    requires n <= |attempts|
  {
    if n == 0 then None
    else
      var last := attempts[n - 1];
      if last.publication.Key() == key && (last.reached.Replaced? || last.reached.Committed?) then Some(last)
      else Latest(attempts, n - 1, key)
  }

  /**
   Over every run, reading a candidate never fails, and returns the request's latest replacement
   if that attempt committed, and a miss otherwise. An older capture is never offered again.
   */
  lemma {:induction false} CandidateIsLatest(attempts: seq<Attempt>, n: nat, key: Name)
    requires Possible(attempts) && n <= |attempts|
    ensures ReadCandidate(Run(attempts, n), key) == Ok(
              match Latest(attempts, n, key)
              case None => None
              case Some(a) =>
                if a.reached.Committed? then Some((a.publication.capture.record, a.publication.instances.record))
                else None)
  {
    hide ReadCandidate, Consistent, After, Allowed, Run, Possible;
    if n == 0 {
      CandidateIsAbsent(START, key);
      RunStarts(attempts);
    } else {
      CandidateIsLatest(attempts, n - 1, key);
      EveryRunIsConsistent(attempts, n - 1);
      LastStep(attempts, n);
      PublicationEffect(Run(attempts, n - 1), attempts[n - 1].publication, attempts[n - 1].reached, key);
    }
  }
}
