/**
 One capture operation, step by step: read the candidate, probe it, or collect and publish. The
 project's inputs change whenever they like, and Cargo and the file system do anything that their
 own rules allow.
 */
module Sessions {
  import opened Base
  import opened Records
  import opened Stores
  import opened Captures
  import Assembly
  import Copies
  import Drivers
  import Histories
  import Manifests
  import Prepared
  import Utf8
  import Wrapper
  import Writer

  datatype Policy = Reuse | Fresh

  datatype Outcome = Captured(record: CaptureRecord) | Reused(record: CaptureRecord)

  datatype Failure = StoreError(store: Stores.Failure) | CompilerError(compiler: Prepared.Failure)

  datatype CollectedBuild = CollectedBuild(evidence: Assembly.CollectedEvidence, artifact: Name)

  /** The argument that selects a target for one token. */
  function SelectedTargetMarker(token: Name): Name {
    Wrapper.MARKER_PREFIX + ['"' as byte] + token + ['"' as byte]
  }

  /** The marker is an analysis marker, and names its token alone. */
  lemma MarkerNamesItsToken(token: Name, other: Name)
    ensures Wrapper.IsAnalysisMarker(SelectedTargetMarker(token))
    ensures SelectedTargetMarker(token) == SelectedTargetMarker(other) ==> token == other
  {
    var n := |Wrapper.MARKER_PREFIX|;
    var a, b := SelectedTargetMarker(token), SelectedTargetMarker(other);
    assert a[..n] == Wrapper.MARKER_PREFIX;
    assert token == a[n + 1..|a| - 1] && other == b[n + 1..|b| - 1];
  }

  /** A token is text, because of its type. */
  predicate TypedToken(token: Name) {
    Utf8.IsUtf8(SelectedTargetMarker(token))
  }

  /** Another token's receipt is foreign to a probe. */
  lemma ReceiptsDiffer(token: Name, other: Name)
    requires TypedToken(token) && TypedToken(other) && token != other
    requires |SelectedTargetMarker(token)| <= U32_MAX && |SelectedTargetMarker(other)| <= U32_MAX
    ensures Prepared.IsForeign(Prepared.Regular(Wrapper.Header(SelectedTargetMarker(other))),
                               SelectedTargetMarker(token))
  {
    hide Wrapper.Header, SelectedTargetMarker;
    MarkerNamesItsToken(token, other);
    if Wrapper.Header(SelectedTargetMarker(other)) == Wrapper.Header(SelectedTargetMarker(token)) {
      Prepared.ReceiptNamesItsMarker(SelectedTargetMarker(other), SelectedTargetMarker(token));
    }
  }

  /** What the driver left of its one analysis: its product, and the manifest if that became visible. */
  datatype Output = Output(product: Drivers.Product, manifest: Option<seq<byte>>)

  /** What happened during one Cargo run: an analysis, a stopped call, and the outcome of Cargo's own check. */
  datatype CargoRun = CargoRun(output: Option<Output>, stopped: bool, isFresh: bool)

  /** One finished Cargo run: its mode and token, whether a call was stopped, and what it left. */
  datatype Finished = Finished(mode: Name, token: Name, stopped: bool, attempt: Prepared.Attempt)

  /** The observation claims that the selected artifact is fresh. */
  predicate ClaimsFresh(attempt: Prepared.Attempt) {
    attempt.observation.selected != [] && attempt.observation.selected[0].isFresh
  }

  /** A probe's run answers fresh, stale, or with an error, by what it left and nothing else. */
  ghost predicate Answers(run: Finished, candidate: Analysis, r: Result<Prepared.Freshness, Prepared.Failure>) {
    var marker := SelectedTargetMarker(candidate.token);
    && run.mode == Wrapper.PROBE && run.token == candidate.token
    && (r == Ok(Prepared.Fresh) <==> Prepared.SucceedsFresh(run.attempt, candidate.artifact))
    && (r == Ok(Prepared.Stale) <==> Prepared.StopsStale(run.attempt, marker))
    && (r == Err(Prepared.InvalidReceipt) <==> Prepared.IsForeign(run.attempt.receipt, marker))
    && (r == Err(Prepared.ProcessFailed) <==>
          && !Prepared.IsForeign(run.attempt.receipt, marker) && !run.attempt.hasManifest && !run.attempt.success
          && !Prepared.StopsStale(run.attempt, marker))
    && (r.Err? ==> r.error in {Prepared.InvalidReceipt, Prepared.ProcessFailed, Prepared.Unclassified})
  }

  /** A collection's run, and whether its product is readable, decide what is collected. */
  ghost predicate Gathers(run: Finished, token: Name, readable: bool, r: Result<CollectedBuild, Prepared.Failure>) {
    var marker, a := SelectedTargetMarker(token), run.attempt;
    && run.mode == Wrapper.COLLECT && run.token == token
    && (r.Ok? <==> readable && exists artifact :: Prepared.SucceedsNew(a, artifact))
    && (r.Ok? ==> Prepared.SucceedsNew(a, r.value.artifact))
    && (r == Err(Prepared.ProcessFailed) <==> !a.success)
    && (r == Err(Prepared.InvalidReceipt) <==> a.success && Prepared.IsForeign(a.receipt, marker))
    && (r == Err(Prepared.Unreadable) <==>
          && a.success && a.receipt == Prepared.Absent && !(a.hasManifest && readable)
          && exists artifact :: Prepared.IsCompleted(a.observation, false, artifact))
    && (r.Err? ==>
          r.error in {Prepared.InvalidReceipt, Prepared.ProcessFailed, Prepared.Unclassified, Prepared.Unreadable})
  }

  /** A workspace: its inputs, what its Cargo target directory knows, and its store. */
  class Session {
    const driver: Drivers.Driver
    const store: Store
    var inputs: Inputs
    var used: set<Name>
    var compiled: set<Compilation>
    ghost var trace: seq<Event>
    ghost var runs: seq<Finished>

    ghost function Now(): World
      reads this, store
    {
      World(inputs, used, compiled, store.Current())
    }

    /** What compiling yields. */
    ghost function Build(): Compiler {
      Drivers.CompilerOf(driver)
    }

    /** The state is that of a legal run. */
    ghost predicate Valid()
      reads this, store
    {
      Drivers.Typed(driver) && Legal(Build(), trace) && Replay(trace, |trace|) == Now()
    }

    constructor (driver: Drivers.Driver, inputs: Inputs)
      requires Drivers.Typed(driver)
      ensures Valid() && fresh(store) && this.driver == driver && this.inputs == inputs && runs == []
    {
      this.driver := driver;
      this.store := new Store();
      this.inputs, this.used, this.compiled := inputs, {}, {};
      this.trace, this.runs := [], [];
      new;
      Record(Change(inputs), World([], {}, {}, Histories.START));
    }

    /** Adds the event that led to the present state. */
    ghost method Record(e: Event, before: World)
      requires Drivers.Typed(driver) && Legal(Build(), trace) && Replay(trace, |trace|) == before
      requires Permitted(Build(), before, e) && Step(before, e) == Now()
      modifies this`trace
      ensures Valid() && trace == old(trace) + [e]
    {
      LegalExtends(Build(), trace, e);
      trace := trace + [e];
    }

    /** The inputs change, or stay. */
    method Drift()
      requires Valid()
      modifies this`inputs, this`trace
      ensures Valid() && old(trace) < trace
      ensures Now() == old(Now()).(inputs := inputs)
    {
      inputs := *;
      Record(Change(inputs), old(Now()));
    }

    lemma PresentIsSeen(from: nat)
      requires Valid() && from <= |trace|
      ensures Seen(trace, from, inputs)
    {
    }

    /** One call of the wrapper within a Cargo run: any arguments, under the run's marker and mode. */
    method Invoke(mode: Name, token: Name)
      returns (route: Wrapper.Route, ghost arguments: seq<Name>, ghost env: Wrapper.Environment)
      ensures route.Analyze? <==>
                mode == Wrapper.COLLECT && Wrapper.IsSelected(arguments, SelectedTargetMarker(token), env)
      ensures route.Stopped? <==>
                && mode == Wrapper.PROBE && Wrapper.IsSelected(arguments, SelectedTargetMarker(token), env)
                && TypedToken(token) && env.receipt.Some? && env.receiptWritable
      ensures route.Stopped? ==> route.receipt == Wrapper.Header(SelectedTargetMarker(token))
    {
      hide Wrapper.IsSelected, Wrapper.IsForwarded, Wrapper.Strips, Wrapper.Header;
      var given: seq<Name>, found: Wrapper.Environment := *, *;
      var supplied := found.(marker := Some(SelectedTargetMarker(token)), mode := Some(mode));
      arguments, env := given, supplied;
      route := Wrapper.Run(given, supplied);
    }

    /** Analyzes the selected target: compiles the token on the present inputs, and writes the manifest. */
    method Analyze(key: Name, token: Name) returns (output: Output, ghost disk: Writer.Disk)
      requires Valid() && token !in used && TypedToken(token)
      modifies this`used, this`compiled, this`trace
      ensures Valid() && old(trace) < trace && inputs == old(inputs)
      ensures store.Current() == old(store.Current())
      ensures used == old(used) + {token} && compiled == old(compiled) + {Compilation(token, key, inputs)}
      ensures output.product == driver(key, inputs)
      ensures output.manifest.Some? <==> Drivers.BecomesVisible(output.product, SelectedTargetMarker(token), disk)
      ensures output.manifest.Some? ==>
                Drivers.IsStreamOf(output.manifest.value, SelectedTargetMarker(token), output.product)
    {
      hide Drivers.TypedProduct, Drivers.IsStreamOf, Drivers.CompilerOf, Drivers.BecomesVisible;
      var product, files: Writer.Disk := driver(key, inputs), *;
      disk := files;
      var manifest := Drivers.Write(product, SelectedTargetMarker(token), files);
      output := Output(product, manifest);
      ghost var before := Now();
      used, compiled := used + {token}, compiled + {Compilation(token, key, inputs)};
      Record(Collect(key, token, true), before);
    }

    /** What a run's analysis did to the world, or that there was none. */
    ghost predicate Ran(run: CargoRun, key: Name, token: Name, before: World, from: nat, at: Inputs)
      reads this, store
    {
      match run.output
      case None => used == before.used && compiled == before.compiled
      case Some(output) =>
        && used == before.used + {token} && compiled == before.compiled + {Compilation(token, key, at)}
        && Seen(trace, from, at) && output.product == driver(key, at)
        && (output.manifest.Some? ==>
              Drivers.IsStreamOf(output.manifest.value, SelectedTargetMarker(token), output.product))
    }

    /**
     One Cargo run. As often as it likes, and while the inputs change, Cargo checks whether the token
     is fresh, and calls the wrapper. An analyzed call compiles, in whatever mode; one call at most is
     the selected target's. That a probe compiles nothing is thus the wrapper's doing.
     */
    method RunCargo(mode: Name, key: Name, token: Name) returns (run: CargoRun, ghost at: Inputs, ghost checked: Inputs)
      requires Valid() && (mode == Wrapper.COLLECT ==> token !in used && TypedToken(token))
      modifies this`inputs, this`used, this`compiled, this`trace
      ensures Valid() && old(trace) <= trace && store.Current() == old(store.Current())
      ensures Ran(run, key, token, old(Now()), |old(trace)|, at)
      ensures run.output.Some? ==> mode == Wrapper.COLLECT
      ensures run.stopped ==> mode == Wrapper.PROBE
      ensures run.isFresh ==> Compiled(compiled, token, checked) && Seen(trace, |old(trace)|, checked)
    {
      hide Wrapper.Header, Seen, Drivers.CompilerOf, Drivers.IsStreamOf, Drivers.BecomesVisible,
        Wrapper.IsSelected;
      run, at, checked := CargoRun(None, false, false), inputs, inputs;
      var turns: nat := *;
      while turns > 0
        invariant Valid() && old(trace) <= trace && store.Current() == old(store.Current())
        invariant Ran(run, key, token, old(Now()), |old(trace)|, at)
        invariant run.output.Some? ==> mode == Wrapper.COLLECT
        invariant run.stopped ==> mode == Wrapper.PROBE
        invariant run.isFresh ==> Compiled(compiled, token, checked) && Seen(trace, |old(trace)|, checked)
      {
        ghost var was := trace;
        if * {
          run, checked := run.(isFresh := Compiled(compiled, token, inputs)), inputs;
          PresentIsSeen(|old(trace)|);
        } else {
          var route;
          ghost var arguments, env;
          route, arguments, env := Invoke(mode, token);
          if route.Analyze? && run.output.None? {
            var output;
            ghost var disk;
            output, disk := Analyze(key, token);
            run, at := run.(output := Some(output)), inputs;
            PresentIsSeen(|old(trace)|);
            if run.isFresh {
              SeenStays(was, trace, |old(trace)|, checked);
            }
          }
          run := run.(stopped := run.stopped || route.Stopped?);
        }
        was := trace;
        Drift();
        if run.isFresh {
          SeenStays(was, trace, |old(trace)|, checked);
        }
        if run.output.Some? {
          SeenStays(was, trace, |old(trace)|, at);
        }
        turns := turns - 1;
      }
    }

    /**
     Whatever Cargo reports of a run, except that only the driver leaves the manifest, only a stopped
     call leaves this token's receipt, and freshness is claimed only if Cargo's check found it.
     */
    method Report(mode: Name, run: CargoRun, token: Name) returns (attempt: Prepared.Attempt)
      modifies this`runs
      ensures runs == old(runs) + [Finished(mode, token, run.stopped, attempt)]
      ensures attempt.hasManifest <==> run.output.Some? && run.output.value.manifest.Some?
      ensures attempt.receipt == Prepared.Regular(Wrapper.Header(SelectedTargetMarker(token))) ==> run.stopped
      ensures ClaimsFresh(attempt) ==> run.isFresh
    {
      attempt := *;
      attempt := attempt.(hasManifest := run.output.Some? && run.output.value.manifest.Some?);
      if attempt.receipt == Prepared.Regular(Wrapper.Header(SelectedTargetMarker(token))) && !run.stopped {
        attempt := attempt.(receipt := Prepared.Absent);
      }
      if ClaimsFresh(attempt) && !run.isFresh {
        attempt := attempt.(observation := attempt.observation.(selected := []));
      }
      runs := runs + [Finished(mode, token, run.stopped, attempt)];
    }

    /** Runs Cargo in probe mode. Its claim of freshness is about the inputs of a moment within the run. */
    method RunProbe(key: Name, token: Name)
      returns (attempt: Prepared.Attempt, ghost checked: Inputs, ghost stopped: bool)
      requires Valid()
      modifies this
      ensures Valid() && old(trace) < trace
      ensures Now() == old(Now()).(inputs := inputs) && !attempt.hasManifest
      ensures runs == old(runs) + [Finished(Wrapper.PROBE, token, stopped, attempt)]
      ensures attempt.receipt == Prepared.Regular(Wrapper.Header(SelectedTargetMarker(token))) ==> stopped
      ensures ClaimsFresh(attempt) ==> Compiled(compiled, token, checked) && Seen(trace, |old(trace)|, checked)
    {
      hide Wrapper.Header, Seen, Compiled, Drivers.CompilerOf;
      assert Wrapper.PROBE[0] != Wrapper.COLLECT[0];
      var run;
      ghost var at;
      run, at, checked := RunCargo(Wrapper.PROBE, key, token);
      ghost var was := trace;
      Record(Probe(key, token), Now());
      if run.isFresh {
        SeenStays(was, trace, |old(trace)|, checked);
      }
      stopped := run.stopped;
      attempt := Report(Wrapper.PROBE, run, token);
    }

    /**
     Runs Cargo in collection mode under a new token. Its manifest is what compiling the inputs of a
     moment within the run makes.
     */
    method RunCollect(key: Name, token: Name)
      returns (attempt: Prepared.Attempt, output: Option<Output>, ghost at: Inputs)
      requires Valid() && token !in used && TypedToken(token)
      modifies this
      ensures Valid() && old(trace) <= trace
      ensures used == old(used) + {token} && store.Current() == old(store.Current())
      ensures old(compiled) <= compiled <= old(compiled) + {Compilation(token, key, at)}
      ensures runs == old(runs) + [Finished(Wrapper.COLLECT, token, false, attempt)]
      ensures attempt.hasManifest <==> output.Some? && output.value.manifest.Some?
      ensures output.Some? ==>
                && Compilation(token, key, at) in compiled && Seen(trace, |old(trace)|, at)
                && output.value.product == driver(key, at)
      ensures attempt.hasManifest ==>
                Drivers.IsStreamOf(output.value.manifest.value, SelectedTargetMarker(token), output.value.product)
    {
      hide Wrapper.Header, Seen, Compiled, Drivers.CompilerOf, Drivers.IsStreamOf;
      assert Wrapper.PROBE[0] != Wrapper.COLLECT[0];
      var run;
      ghost var checked;
      run, at, checked := RunCargo(Wrapper.COLLECT, key, token);
      if run.output.None? {
        ghost var before := Now();
        used := used + {token};
        Record(Collect(key, token, false), before);
      }
      attempt := Report(Wrapper.COLLECT, run, token);
      output := run.output;
    }

    /** Publishes evidence that was compiled in this run. */
    method RunPublish(p: Publication, faults: Faults) returns (r: Result<(), Stores.Failure>, ghost reached: Reached)
      requires Valid() && Founded(Build(), Now(), p.capture.record, p.instances.record)
      modifies this`trace, store
      ensures Valid() && old(trace) < trace && Allowed(old(store.Current()), p, reached)
      ensures Now() == old(Now()).(store := After(old(store.Current()), p, reached))
      ensures r.Ok? <==> reached.Committed?
      ensures Ample(p, faults) && faults.stop.None? ==> Reports(r, Refusal(old(store.Current()), p))
    {
      hide Founded, Allowed, After, Ample, Refusal, Reports, Drivers.CompilerOf;
      ghost var before := Now();
      r, reached := store.Publish(p, faults);
      Record(Publish(p, reached), before);
    }
  }

  /** One request, resolved once. */
  class PreparedBuild {
    const session: Session
    const requestKey: Name
    var stoppedProbe: bool

    constructor (session: Session, requestKey: Name)
      ensures this.session == session && this.requestKey == requestKey && !stoppedProbe
    {
      this.session, this.requestKey, this.stoppedProbe := session, requestKey, false;
    }

    /**
     Probes a candidate with one Cargo run, and what that run left decides the answer. Fresh means that
     the candidate's token was compiled on the inputs of a moment within the probe, and stale that the
     wrapper stopped a call in it.
     */
    method Probe(candidate: Analysis)
      returns (r: Result<Prepared.Freshness, Prepared.Failure>, ghost checked: Inputs, ghost run: Finished)
      requires session.Valid()
      modifies this, session
      ensures session.Valid() && old(session.trace) <= session.trace
      ensures session.Now() == old(session.Now()).(inputs := session.inputs)
      ensures candidate.requestKey != requestKey ==> r == Err(Prepared.MismatchedCandidate)
      ensures candidate.requestKey == requestKey && old(stoppedProbe) ==> r == Err(Prepared.ProbedTwice)
      ensures session.runs == if candidate.requestKey == requestKey && !old(stoppedProbe) then old(session.runs) + [run]
                              else old(session.runs)
      ensures candidate.requestKey == requestKey && !old(stoppedProbe) ==>
                Answers(run, candidate, r) && (r == Ok(Prepared.Stale) ==> run.stopped)
      ensures r == Ok(Prepared.Fresh) ==>
                && Compiled(session.compiled, candidate.token, checked)
                && Seen(session.trace, |old(session.trace)|, checked)
      ensures stoppedProbe <==> old(stoppedProbe) || r == Ok(Prepared.Stale)
    {
      hide Seen, Compiled, Drivers.CompilerOf, Wrapper.Header;
      checked, run := session.inputs, *;
      if candidate.requestKey != requestKey {
        return Err(Prepared.MismatchedCandidate), checked, run;
      }
      if stoppedProbe {
        return Err(Prepared.ProbedTwice), checked, run;
      }
      var attempt;
      ghost var stopped;
      attempt, checked, stopped := session.RunProbe(requestKey, candidate.token);
      run := Finished(Wrapper.PROBE, candidate.token, stopped, attempt);
      r := Prepared.ClassifyProbe(attempt, candidate.artifact, SelectedTargetMarker(candidate.token));
      if r == Ok(Prepared.Stale) {
        stoppedProbe := true;
      }
    }

    /**
     Collects with one Cargo run, under a new token, what the driver makes of the inputs of a moment
     within the run. What that run left, and whether the driver's product is readable, decide the
     result, and the artifact is the one that Cargo reported.
     */
    method Collect(token: Name)
      returns (r: Result<CollectedBuild, Prepared.Failure>, ghost at: Inputs, ghost run: Finished)
      requires session.Valid() && token !in session.used && TypedToken(token)
      modifies session
      ensures session.Valid() && old(session.trace) <= session.trace
      ensures session.store.Current() == old(session.store.Current())
      ensures session.used == old(session.used) + {token} && session.runs == old(session.runs) + [run]
      ensures Gathers(run, token, Drivers.Readable(session.driver(requestKey, at)), r)
      ensures r.Ok? ==>
                && Drivers.Makes(session.driver(requestKey, at), r.value.evidence)
                && Compilation(token, requestKey, at) in session.compiled
                && Seen(session.trace, |old(session.trace)|, at)
    {
      hide Seen, Compiled, Drivers.CompilerOf, Drivers.Makes, Drivers.IsStreamOf, Drivers.Readable, Wrapper.Header;
      var attempt, output;
      attempt, output, at := session.RunCollect(requestKey, token);
      run := Finished(Wrapper.COLLECT, token, false, attempt);
      var artifact := Prepared.ClassifyCollection(attempt, SelectedTargetMarker(token));
      if artifact.Err? {
        return Err(artifact.error), at, run;
      }
      if !attempt.hasManifest {
        return Err(Prepared.Unreadable), at, run;
      }
      var read := Drivers.Read(output.value.manifest.value, SelectedTargetMarker(token), output.value.product);
      r := if read.Err? then Err(Prepared.Unreadable) else Ok(CollectedBuild(read.value, artifact.value));
    }
  }

  /** Validates the evidence as the manifest of a new capture. */
  method IntoManifest(collected: CollectedBuild, captureId: Name)
    returns (r: Result<InstanceManifest, Prepared.Failure>)
    ensures r.Ok? <==> Assembly.ValidEvidence(collected.evidence)
    ensures r.Ok? ==> r.value == Assembly.ManifestWith(collected.evidence, captureId)
    ensures r.Err? ==> r.error == Prepared.InvalidEvidence
  {
    var made := Assembly.IntoManifest(collected.evidence, captureId);
    r := if made.Err? then Err(Prepared.InvalidEvidence) else Ok(made.value);
  }

  /**
   Everything that the environment supplies to one capture: whether the request resolves, new IDs, the
   clock, and the file system.
   */
  datatype Supply = Supply(
    resolves: bool,
    initializes: bool,
    token: Name,
    captureId: Name,
    time: nat,
    header: seq<seq<byte>>,
    instances: seq<seq<byte>>,
    pointer: seq<seq<byte>>,
    files: Copies.Files,
    faults: Faults)

  /** What a reader of the store then gets for the request, if anything. */
  ghost predicate Offers(s: State, key: Name, capture: CaptureRecord, m: InstanceManifest) {
    ReadCandidate(s, key) == Ok(Some((capture, m)))
  }

  lemma FoundedByCompilation(build: Compiler, w: World, c: Compilation, capture: CaptureRecord, m: InstanceManifest)
    requires c in w.compiled && Yielded(build, c, capture, m)
    ensures Founded(build, w, capture, m)
  {
  }

  lemma SessionIsSound(session: Session)
    requires session.Valid()
    ensures Sound(session.Build(), session.Now())
  {
    EveryRunIsSound(session.Build(), session.trace, |session.trace|);
  }

  lemma ReusedIsCurrent(build: Compiler, before: World, now: World, capture: CaptureRecord, m: InstanceManifest,
                        checked: Inputs)
    requires Sound(build, now) && Founded(build, before, capture, m) && before.compiled == now.compiled
    requires Compiled(now.compiled, capture.analysis.token, checked)
    ensures m == WithId(build(capture.analysis.requestKey, checked), capture.id)
  {
    var c :| c in before.compiled && Yielded(build, c, capture, m);
    var moment := now.(inputs := checked);
    FoundedByCompilation(build, moment, c, capture, m);
    FreshMeansCurrent(build, moment, capture, m);
  }

  /** What is published: the records with the encodings, and the files, that the environment supplies. */
  function PublicationOf(capture: CaptureRecord, m: InstanceManifest, supply: Supply): Publication {
    Publication(Encoded(capture, supply.header), Encoded(m, supply.instances), supply.pointer, supply.files)
  }

  /** The environment lets a publication through. */
  ghost predicate Unhindered(capture: CaptureRecord, m: InstanceManifest, supply: Supply) {
    Ample(PublicationOf(capture, m, supply), supply.faults) && supply.faults.stop.None?
  }

  /**
   Publishes one capture. Success makes it the request's candidate, failure completes nothing, and
   unhindered it fails by the first refusal that applies, if any.
   */
  method PublishCapture(session: Session, capture: CaptureRecord, manifest: InstanceManifest, supply: Supply)
    returns (r: Result<(), Stores.Failure>)
    requires session.Valid() && Founded(session.Build(), session.Now(), capture, manifest)
    modifies session`trace, session.store
    ensures session.Valid() && old(session.trace) <= session.trace
    ensures Unhindered(capture, manifest, supply) ==>
              Reports(r, Refusal(old(session.store.Current()), PublicationOf(capture, manifest, supply)))
    ensures r.Err? ==> session.store.captures == old(session.store.captures)
    ensures r.Ok? ==>
              && capture.id !in old(session.store.captures)
              && Offers(session.store.Current(), capture.analysis.requestKey, capture, manifest)
  {
    hide ReadCandidate, Founded, Copyable, Fits, Contents, Ample, Reports, Refusal;
    ghost var before := session.store.Current();
    SessionIsSound(session);
    var p := PublicationOf(capture, manifest, supply);
    ghost var reached;
    r, reached := session.RunPublish(p, supply.faults);
    Histories.PublicationEffect(before, p, reached, capture.analysis.requestKey);
  }

  /** The results of the operations that one capture calls; none where it does not call. */
  datatype Steps = Steps(
    prepare: Result<(), Prepared.Failure>,
    initialize: Option<Result<(), Stores.Failure>>,
    probe: Option<Result<Prepared.Freshness, Prepared.Failure>>,
    collect: Option<Result<CollectedBuild, Prepared.Failure>>,
    validate: Option<Result<InstanceManifest, Prepared.Failure>>,
    publish: Option<Result<(), Stores.Failure>>)

  type Found = Result<Option<(CaptureRecord, InstanceManifest)>, Stores.Failure>

  /** Nothing is called after preparation and initialization. */
  predicate StopsEarly(steps: Steps) {
    steps.probe.None? && NeverCollects(steps)
  }

  predicate NeverCollects(steps: Steps) {
    steps.collect.None? && steps.validate.None? && steps.publish.None?
  }

  /** Which operations are called, in which order, and what their results decide. */
  ghost predicate Decides(policy: Policy, found: Found, steps: Steps, r: Result<Outcome, Failure>) {
    match steps.prepare
    case Err(e) => steps.initialize.None? && StopsEarly(steps) && r == Err(CompilerError(e))
    case Ok(_) =>
      && steps.initialize.Some?
      && match steps.initialize.value
         case Err(e) => StopsEarly(steps) && r == Err(StoreError(e))
         case Ok(_) => Continues(policy, found, steps, r)
  }

  /** The same once the store is there. */
  ghost predicate Continues(policy: Policy, found: Found, steps: Steps, r: Result<Outcome, Failure>) {
    if policy.Fresh? then steps.probe.None? && Collects(steps, r)
    else if found.Err? then StopsEarly(steps) && r == Err(StoreError(found.error))
    else if found.value.None? then steps.probe.None? && Collects(steps, r)
    else
      && steps.probe.Some?
      && match steps.probe.value
         case Err(e) => NeverCollects(steps) && r == Err(CompilerError(e))
         case Ok(Fresh) => NeverCollects(steps) && r == Ok(Reused(found.value.value.0))
         case Ok(Stale) => Collects(steps, r)
  }

  ghost predicate Collects(steps: Steps, r: Result<Outcome, Failure>) {
    && steps.collect.Some?
    && match steps.collect.value
       case Err(e) => steps.validate.None? && steps.publish.None? && r == Err(CompilerError(e))
       case Ok(_) =>
         && steps.validate.Some?
         && match steps.validate.value
            case Err(e) => steps.publish.None? && r == Err(CompilerError(e))
            case Ok(_) =>
              && steps.publish.Some?
              && match steps.publish.value
                 case Err(e) => r == Err(StoreError(e))
                 case Ok(_) => r.Ok? && r.value.Captured?
  }

  /** The new capture of collected evidence. */
  function CaptureOf(requestKey: Name, supply: Supply, artifact: Name): CaptureRecord {
    CaptureRecord(supply.captureId, supply.time, Analysis(requestKey, supply.token, artifact))
  }

  /** What decides the results of a collection's steps: its run, its product, its evidence, and the store. */
  ghost predicate Performs(steps: Steps, run: Finished, requestKey: Name, product: Drivers.Product, supply: Supply,
                           store: State) {
    && steps.collect.Some? && Gathers(run, supply.token, Drivers.Readable(product), steps.collect.value)
    && (steps.validate.Some? ==>
          && steps.collect.value.Ok?
          && Validates(steps.collect.value.value.evidence, supply.captureId, steps.validate.value))
    && (steps.publish.Some? ==>
          && steps.validate.Some? && steps.validate.value.Ok?
          && Completes(CaptureOf(requestKey, supply, steps.collect.value.value.artifact), steps.validate.value.value,
                       supply, store, steps.publish.value))
  }

  ghost predicate Validates(e: Assembly.CollectedEvidence, id: Name, r: Result<InstanceManifest, Prepared.Failure>) {
    && (r.Ok? <==> Assembly.ValidEvidence(e)) && (r.Ok? ==> r.value == Assembly.ManifestWith(e, id))
    && (r.Err? ==> r.error == Prepared.InvalidEvidence)
  }

  ghost predicate Completes(capture: CaptureRecord, m: InstanceManifest, supply: Supply, store: State,
                            r: Result<(), Stores.Failure>) {
    Unhindered(capture, m, supply) ==> Reports(r, Refusal(store, PublicationOf(capture, m, supply)))
  }

  /** The evidence is what compiling the inputs of a moment since the first `from` events yields. */
  ghost predicate IsCurrent(session: Session, from: nat, requestKey: Name, id: Name, m: InstanceManifest)
    reads session
  {
    exists at :: Seen(session.trace, from, at) && m == WithId(session.Build()(requestKey, at), id)
  }

  /** What a new capture is: evidence compiled under the new token, published, and found afterwards. */
  ghost predicate IsNew(session: Session, from: nat, requestKey: Name, record: CaptureRecord, m: InstanceManifest,
                        supply: Supply)
    reads session, session.store
  {
    && Offers(session.store.Current(), requestKey, record, m) && Manifests.ValidManifest(m)
    && record == CaptureOf(requestKey, supply, record.analysis.artifact)
    && exists at :: Seen(session.trace, from, at) && WasCompiled(session, requestKey, m, supply, at)
  }

  /** The driver analyzed these inputs under the new token, and the manifest is the evidence that this made. */
  ghost predicate WasCompiled(session: Session, requestKey: Name, m: InstanceManifest, supply: Supply, at: Inputs)
    reads session
  {
    && Compilation(supply.token, requestKey, at) in session.compiled
    && m == Assembly.ManifestWith(Drivers.EvidenceOf(session.driver(requestKey, at)), supply.captureId)
    && Drivers.Makes(session.driver(requestKey, at), Drivers.EvidenceOf(session.driver(requestKey, at)))
  }

  lemma IsNewSince(session: Session, from: nat, later: nat, requestKey: Name, record: CaptureRecord,
                   m: InstanceManifest, supply: Supply)
    requires IsNew(session, later, requestKey, record, m, supply) && from <= later
    ensures IsNew(session, from, requestKey, record, m, supply)
  {
    hide Seen, WasCompiled, Offers, Manifests.ValidManifest;
    var at :| Seen(session.trace, later, at) && WasCompiled(session, requestKey, m, supply, at);
    SeenEarlier(session.trace, from, later, at);
  }

  /** Collects under the new token and publishes the result under the new ID. */
  method CollectAndPublish(session: Session, prepared: PreparedBuild, supply: Supply, ghost before: Steps)
    returns (r: Result<Outcome, Failure>, ghost m: InstanceManifest, ghost steps: Steps, ghost at: Inputs,
             ghost run: Finished)
    requires session.Valid() && supply.token !in session.used && TypedToken(supply.token) && prepared.session == session
    requires NeverCollects(before)
    modifies session, session.store
    ensures session.Valid() && old(session.trace) <= session.trace
    ensures session.used == old(session.used) + {supply.token} && session.runs == old(session.runs) + [run]
    ensures steps.prepare == before.prepare && steps.initialize == before.initialize && steps.probe == before.probe
    ensures Collects(steps, r)
    ensures Performs(steps, run, prepared.requestKey, session.driver(prepared.requestKey, at), supply,
                     old(session.store.Current()))
    ensures r.Err? ==> session.store.captures == old(session.store.captures)
    ensures r.Ok? ==>
              && Prepared.SucceedsNew(run.attempt, r.value.record.analysis.artifact)
              && IsNew(session, |old(session.trace)|, prepared.requestKey, r.value.record, m, supply)
              && r.value.record.id !in old(session.store.captures)
  {
    hide ReadCandidate, Founded, Seen, Legal, Manifests.Valid, Assembly.IsEvidenceOf, Drivers.CompilerOf,
      Drivers.EvidenceOf, Drivers.Typed, Unhindered, Reports, Refusal, Drivers.Readable, Prepared.SucceedsNew,
      Prepared.IsForeign, Prepared.IsCompleted;
    steps, m := before, session.Build()(prepared.requestKey, session.inputs);
    var collected;
    collected, at, run := prepared.Collect(supply.token);
    steps := steps.(collect := Some(collected));
    if collected.Err? {
      return Err(CompilerError(collected.error)), m, steps, at, run;
    }
    var validated := IntoManifest(collected.value, supply.captureId);
    steps := steps.(validate := Some(validated));
    if validated.Err? {
      return Err(CompilerError(validated.error)), m, steps, at, run;
    }
    var manifest := validated.value;
    var analysis := Analysis(prepared.requestKey, supply.token, collected.value.artifact);
    var capture := CaptureRecord(supply.captureId, supply.time, analysis);
    ghost var compilation := Compilation(supply.token, prepared.requestKey, at);
    Drivers.MakesOnce(session.driver, prepared.requestKey, at, collected.value.evidence, supply.captureId);
    ghost var was := session.trace;
    session.Drift();
    FoundedByCompilation(session.Build(), session.Now(), compilation, capture, manifest);
    var published := PublishCapture(session, capture, manifest, supply);
    m, steps := manifest, steps.(publish := Some(published));
    assert WasCompiled(session, prepared.requestKey, m, supply, at);
    SeenStays(was, session.trace, |old(session.trace)|, at);
    r := if published.Err? then Err(StoreError(published.error)) else Ok(Captured(capture));
  }

  /** A reused capture: found, and one probe run that left nothing but this capture's artifact, fresh. */
  ghost predicate Reuses(policy: Policy, found: Found, supply: Supply, runs: seq<Finished>) {
    && supply.resolves && supply.initializes && policy.Reuse? && found.Ok? && found.value.Some?
    && |runs| == 1 && runs[0].mode == Wrapper.PROBE
    && Prepared.SucceedsFresh(runs[0].attempt, found.value.value.0.analysis.artifact)
  }

  /** The operation's Cargo runs: the probe if there is one, and then the collection if there is one. */
  ghost predicate Runs(steps: Steps, found: Found, supply: Supply, runs: seq<Finished>) {
    && |runs| == (if steps.probe.Some? then 1 else 0) + (if steps.collect.Some? then 1 else 0)
    && (steps.probe.Some? ==>
          && found.Ok? && found.value.Some?
          && Answers(runs[0], found.value.value.0.analysis, steps.probe.value)
          && (steps.probe.value == Ok(Prepared.Stale) ==> runs[0].stopped))
    && (steps.prepare.Ok? <==> supply.resolves)
    && (steps.initialize.Some? && steps.initialize.value.Ok? <==> supply.resolves && supply.initializes)
  }

  /**
   Captures a request. A reused capture holds what compiling the inputs of a moment within the
   operation would give, and changes nothing. A new one holds what compiling the inputs of such a
   moment gave, and is what the request now finds. A failure completes no capture and hides none.
   What decides each of them is what the operation's Cargo runs left.
   */
  method Capture(session: Session, requestKey: Name, policy: Policy, supply: Supply)
    returns (r: Result<Outcome, Failure>, ghost m: InstanceManifest, ghost steps: Steps, ghost at: Inputs,
             ghost runs: seq<Finished>)
    requires session.Valid() && supply.token !in session.used && TypedToken(supply.token)
    modifies session, session.store
    ensures session.Valid() && old(session.trace) <= session.trace
    ensures session.used <= old(session.used) + {supply.token} && session.runs == old(session.runs) + runs
    ensures Decides(policy, ReadCandidate(old(session.store.Current()), requestKey), steps, r)
    ensures Runs(steps, ReadCandidate(old(session.store.Current()), requestKey), supply, runs)
    ensures steps.collect.Some? ==>
              Performs(steps, runs[|runs| - 1], requestKey, session.driver(requestKey, at), supply,
                       old(session.store.Current()))
    ensures r.Err? ==> session.store.captures == old(session.store.captures)
    ensures r.Ok? && r.value.Reused? <==>
              Reuses(policy, ReadCandidate(old(session.store.Current()), requestKey), supply, runs)
    ensures r.Ok? && r.value.Reused? ==>
              && session.store.Current() == old(session.store.Current()) && session.compiled == old(session.compiled)
              && Offers(session.store.Current(), requestKey, r.value.record, m)
              && IsCurrent(session, |old(session.trace)|, requestKey, r.value.record.id, m)
    ensures r.Ok? && r.value.Captured? ==>
              && runs != [] && Prepared.SucceedsNew(runs[|runs| - 1].attempt, r.value.record.analysis.artifact)
              && IsNew(session, |old(session.trace)|, requestKey, r.value.record, m, supply)
              && r.value.record.id !in old(session.store.captures)
  {
    hide ReadCandidate, Compiled, Founded, Sound, Seen, Legal, Manifests.Valid, Drivers.Makes, Drivers.CompilerOf,
      Drivers.Typed, WasCompiled, Performs, Prepared.SucceedsFresh, Prepared.SucceedsNew, Prepared.StopsStale,
      Prepared.IsForeign;
    m, steps := session.Build()(requestKey, session.inputs), Steps(Ok(()), None, None, None, None, None);
    at, runs := session.inputs, [];
    if !supply.resolves {
      steps := steps.(prepare := Err(Prepared.NotPrepared));
      return Err(CompilerError(Prepared.NotPrepared)), m, steps, at, runs;
    }
    var prepared := new PreparedBuild(session, requestKey);
    if !supply.initializes {
      steps := steps.(initialize := Some(Err(Filesystem)));
      return Err(StoreError(Filesystem)), m, steps, at, runs;
    }
    steps := steps.(initialize := Some(Ok(())));
    ghost var run;
    if policy.Reuse? {
      var found := ReadCandidate(session.store.Current(), requestKey);
      if found.Err? {
        return Err(StoreError(found.error)), m, steps, at, runs;
      }
      ghost var before := session.Now();
      SessionIsSound(session);
      CandidateIsFounded(session.Build(), before, requestKey);
      if found.value.Some? {
        var candidate := found.value.value.0;
        m := found.value.value.1;
        var freshness;
        ghost var checked;
        freshness, checked, run := prepared.Probe(candidate.analysis);
        steps, runs := steps.(probe := Some(freshness)), [run];
        if freshness.Err? {
          return Err(CompilerError(freshness.error)), m, steps, at, runs;
        }
        if freshness.value.Fresh? {
          SessionIsSound(session);
          ReusedIsCurrent(session.Build(), before, session.Now(), candidate, m, checked);
          return Ok(Reused(candidate)), m, steps, at, runs;
        }
      }
    }
    ghost var later := |session.trace|;
    r, m, steps, at, run := CollectAndPublish(session, prepared, supply, steps);
    runs := runs + [run];
    if r.Ok? {
      IsNewSince(session, |old(session.trace)|, later, requestKey, r.value.record, m, supply);
    }
  }

  /**
   What one capture publishes is what the next one asks Cargo about. The second reuses the first's
   record exactly if its probe reports, fresh, the artifact that the first's collection reported new.
   */
  method CaptureTwice(session: Session, requestKey: Name, policy: Policy, supply: Supply, again: Supply)
    returns (first: Result<Outcome, Failure>, second: Result<Outcome, Failure>, ghost runs: seq<Finished>,
             ghost following: seq<Finished>)
    requires session.Valid() && TypedToken(supply.token) && TypedToken(again.token)
    requires supply.token !in session.used && again.token !in session.used && supply.token != again.token
    modifies session, session.store
    ensures session.runs == old(session.runs) + runs + following
    ensures first.Ok? && first.value.Captured? && again.resolves && again.initializes ==>
              && runs != [] && following != []
              && following[0].mode == Wrapper.PROBE && following[0].token == supply.token
              && exists artifact ::
                   && Prepared.SucceedsNew(runs[|runs| - 1].attempt, artifact)
                   && (second == Ok(Reused(first.value.record)) <==>
                         Prepared.SucceedsFresh(following[0].attempt, artifact))
  {
    hide ReadCandidate, Compiled, Founded, Sound, Seen, Legal, Manifests.Valid, Drivers.Makes, Drivers.CompilerOf,
      Drivers.Typed, WasCompiled, Performs, Prepared.SucceedsFresh, Prepared.SucceedsNew, Prepared.StopsStale,
      Prepared.IsForeign, IsCurrent;
    ghost var m, n, steps, at;
    first, m, steps, at, runs := Capture(session, requestKey, policy, supply);
    session.Drift();
    second, n, steps, at, following := Capture(session, requestKey, Reuse, again);
  }
}
