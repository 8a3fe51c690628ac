/** How one Cargo attempt is classified: stale receipts, completed observations, and probe results. */
module Prepared {
  import opened Base
  import Protocol
  import Utf8
  import Wire
  import Wrapper

  type Name = seq<byte>

  datatype Failure =
    | NotPrepared | InvalidReceipt | Unclassified | ProcessFailed | MismatchedCandidate | ProbedTwice
    | Unreadable | InvalidEvidence

  /** The receipt's file as the attempt leaves it. */
  datatype ReceiptFile = Absent | Irregular | Regular(bytes: seq<byte>)

  /** One selected artifact message: Cargo's freshness, and the normalized record if it is valid. */
  datatype Artifact = Artifact(isFresh: bool, record: Option<Name>, matchesTarget: bool)

  datatype Observation = Observation(selected: seq<Artifact>, finished: seq<bool>, hasErrors: bool)

  datatype Attempt = Attempt(success: bool, receipt: ReceiptFile, hasManifest: bool, observation: Observation)

  datatype Freshness = Fresh | Stale

  /** Accepts only this attempt's exact receipt; an absent file is no receipt. */
  function VerifiedStaleReceipt(file: ReceiptFile, marker: Name): (r: Result<bool, Failure>)
    ensures r == Ok(true) <==> file == Regular(Wrapper.Header(marker))
    ensures r == Ok(false) <==> file == Absent
    ensures r.Err? ==> r.error == InvalidReceipt
  {
    match file
    case Absent => Ok(false)
    case Irregular => Err(InvalidReceipt)
    case Regular(bytes) =>
      if |bytes| != |Wrapper.Header(marker)| then Err(InvalidReceipt)
      else if bytes != Wrapper.Header(marker) then Err(InvalidReceipt)
      else Ok(true)
  }

  /** A header is read back as its own. */
  lemma HeaderReadsBack(marker: Name)
    requires |marker| <= U32_MAX && Utf8.IsUtf8(marker)
    ensures Protocol.ReadHeader(Wrapper.Header(marker), 0, marker).Ok?
  {
    hide Utf8.IsUtf8, Wire.Encode, Wire.Reads;
    var bytes := Wrapper.Header(marker);
    var last := Wire.Then(Wire.Str(marker), Wire.End);
    assert Wire.RepresentableRow(last) && Wire.RepresentableRow(Wire.Then(Wire.U32(Protocol.PROTOCOL_VERSION), last));
    Wire.RowIffOccurs(bytes, 0, Protocol.HeaderRow(marker, Wire.End), |bytes|);
    Protocol.HeaderIsRead(bytes, 0, marker, Wire.End, |bytes|);
  }

  /** A receipt names one marker, so another token's receipt is never taken for this one's. */
  lemma ReceiptNamesItsMarker(a: Name, b: Name)
    requires |a| <= U32_MAX && Utf8.IsUtf8(a) && |b| <= U32_MAX && Utf8.IsUtf8(b)
    requires Wrapper.Header(a) == Wrapper.Header(b)
    ensures a == b
  {
    hide Utf8.IsUtf8, Wrapper.Header;
    HeaderReadsBack(a);
    HeaderReadsBack(b);
  }

  /** One successful completion, no errors, and one artifact of the wanted freshness and target. */
  predicate IsCompleted(o: Observation, isFresh: bool, record: Name) {
    o == Observation([Artifact(isFresh, Some(record), true)], [true], false)
  }

  function Completed(o: Observation, isFresh: bool): (r: Result<Name, Failure>)
    ensures r.Ok? ==> IsCompleted(o, isFresh, r.value)
    ensures r.Err? ==> r.error == Unclassified && forall record :: !IsCompleted(o, isFresh, record)
  {
    if o.finished != [true] || o.hasErrors then Err(Unclassified)
    else if |o.selected| != 1 then Err(Unclassified)
    else
      var artifact := o.selected[0];
      if artifact.isFresh != isFresh then Err(Unclassified)
      else if artifact.record.None? then Err(Unclassified)
      else if !artifact.matchesTarget then Err(Unclassified)
      else Ok(artifact.record.value)
  }

  /** A successful attempt that left nothing behind, and one fresh artifact: this one. */
  predicate SucceedsFresh(a: Attempt, artifact: Name) {
    a == Attempt(true, Absent, false, Observation([Artifact(true, Some(artifact), true)], [true], false))
  }

  /** A failed attempt that selected nothing, and left exactly this marker's receipt. */
  predicate StopsStale(a: Attempt, marker: Name) {
    && !a.success && a.receipt == Regular(Wrapper.Header(marker)) && !a.hasManifest
    && a.observation.selected == []
  }

  /** A successful attempt that left a manifest and no receipt, and one new artifact: this one. */
  predicate SucceedsNew(a: Attempt, artifact: Name) {
    a == Attempt(true, Absent, true, Observation([Artifact(false, Some(artifact), true)], [true], false))
  }

  /** The receipt's file is there, and is not this marker's receipt. */
  predicate IsForeign(file: ReceiptFile, marker: Name) {
    file != Absent && file != Regular(Wrapper.Header(marker))
  }

  /**
   Fresh takes a successful attempt that left nothing behind and one fresh artifact equal to the
   stored one. Stale takes a failed attempt with exactly this token's receipt and no artifact.
   Everything else is an error, never a guess.
   */
  function ClassifyProbe(a: Attempt, candidate: Name, marker: Name): (r: Result<Freshness, Failure>)
    ensures r == Ok(Fresh) <==> SucceedsFresh(a, candidate)
    ensures r == Ok(Stale) <==> StopsStale(a, marker)
    ensures r == Err(InvalidReceipt) <==> IsForeign(a.receipt, marker)
    ensures r == Err(ProcessFailed) <==>
              !IsForeign(a.receipt, marker) && !a.hasManifest && !a.success && !StopsStale(a, marker)
    ensures r.Err? ==> r.error in {InvalidReceipt, ProcessFailed, Unclassified}
  {
    var stale :- VerifiedStaleReceipt(a.receipt, marker);
    if a.hasManifest then Err(Unclassified)
    else if !a.success then
      if stale && a.observation.selected == [] then Ok(Stale) else Err(ProcessFailed)
    else if stale then Err(Unclassified)
    else
      var artifact :- Completed(a.observation, true);
      if artifact != candidate then Err(Unclassified) else Ok(Fresh)
  }

  /** The artifact of a collection: a success without a receipt, and one new artifact. */
  function ClassifyCollection(a: Attempt, marker: Name): (r: Result<Name, Failure>)
    ensures r.Ok? ==> a.success && a.receipt == Absent && IsCompleted(a.observation, false, r.value)
    ensures r == Err(ProcessFailed) <==> !a.success
    ensures r == Err(InvalidReceipt) <==> a.success && IsForeign(a.receipt, marker)
    ensures r.Err? && a.success && a.receipt == Absent ==> forall x :: !IsCompleted(a.observation, false, x)
    ensures r.Err? ==> r.error in {InvalidReceipt, ProcessFailed, Unclassified}
  {
    if !a.success then Err(ProcessFailed)
    else
      var stale :- VerifiedStaleReceipt(a.receipt, marker);
      if stale then Err(Unclassified) else Completed(a.observation, false)
  }
}
