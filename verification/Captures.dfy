/**
 The capture protocol as runs over a project whose inputs can change at any time. Reuse asks Cargo
 about a published token that no probe compiles, and every collection compiles a new token.
 */
module Captures {
  import opened Base
  import opened Records
  import opened Stores
  import opened Histories

  /** A snapshot of everything that Cargo tracks. */
  type Inputs = seq<byte>

  /** What compiling a request on given inputs yields, apart from the capture's ID. */
  type Compiler = (Name, Inputs) -> InstanceManifest

  function WithId(m: InstanceManifest, id: Name): InstanceManifest {
    m.(captureId := id)
  }

  /** The driver analyzed the selected target under this token, on these inputs. */
  datatype Compilation = Compilation(token: Name, key: Name, inputs: Inputs)

  datatype World = World(inputs: Inputs, used: set<Name>, compiled: set<Compilation>, store: State)

  datatype Event =
    | Change(inputs: Inputs)
    | Probe(key: Name, token: Name)
    | Collect(key: Name, token: Name, analyzed: bool)
    | Publish(publication: Publication, reached: Reached)

  function Step(w: World, e: Event): World {
    match e
    case Change(inputs) => w.(inputs := inputs)
    case Probe(_, _) => w
    case Collect(key, token, analyzed) =>
      w.(used := w.used + {token},
         compiled := if analyzed then w.compiled + {Compilation(token, key, w.inputs)} else w.compiled)
    case Publish(p, reached) => w.(store := After(w.store, p, reached))
  }

  /** A capture's evidence is what this compilation yielded, under its own ID, token and key. */
  predicate Yielded(build: Compiler, c: Compilation, capture: CaptureRecord, m: InstanceManifest) {
    && c.token == capture.analysis.token
    && c.key == capture.analysis.requestKey
    && m == WithId(build(c.key, c.inputs), capture.id)
  }

  ghost predicate Founded(build: Compiler, w: World, capture: CaptureRecord, m: InstanceManifest) {
    exists c :: c in w.compiled && Yielded(build, c, capture, m)
  }

  /** A collection uses a new token. A publication can fail anywhere, and stores what was compiled. */
  ghost predicate Permitted(build: Compiler, w: World, e: Event) {
    match e
    case Change(_) => true
    case Probe(_, _) => true
    case Collect(_, token, _) => token !in w.used
    case Publish(p, reached) =>
      Allowed(w.store, p, reached) && Founded(build, w, p.capture.record, p.instances.record)
  }

  function Replay(trace: seq<Event>, n: nat): World
    requires n <= |trace|
  {
    if n == 0 then World([], {}, {}, START) else Step(Replay(trace, n - 1), trace[n - 1])
  }

  ghost predicate Legal(build: Compiler, trace: seq<Event>) {
    forall n :: 0 <= n < |trace| ==> Permitted(build, Replay(trace, n), trace[n])
  }

  /** What Cargo may report: a token is fresh only if it was compiled on the current inputs. */
  predicate CanReportFresh(w: World, token: Name) {
    Compiled(w.compiled, token, w.inputs)
  }

  predicate Compiled(compiled: set<Compilation>, token: Name, inputs: Inputs) {
    exists c :: c in compiled && c.token == token && c.inputs == inputs
  }

  // ---- The invariant ----

  ghost predicate TokensOnce(w: World) {
    && (forall c, d :: c in w.compiled && d in w.compiled && c.token == d.token ==> c == d)
    && (forall c :: c in w.compiled ==> c.token in w.used)
  }

  ghost predicate AllFounded(build: Compiler, w: World) {
    forall id :: id in w.store.captures ==> FoundedDirectory(build, w, w.store.captures[id])
  }

  ghost predicate FoundedDirectory(build: Compiler, w: World, d: Directory) {
    d.header.Written? && d.instances.Written? && Founded(build, w, d.header.record, d.instances.record)
  }

  ghost predicate Sound(build: Compiler, w: World) {
    Consistent(w.store) && TokensOnce(w) && AllFounded(build, w)
  }

  lemma FoundedStays(build: Compiler, w: World, e: Event, capture: CaptureRecord, m: InstanceManifest)
    requires Founded(build, w, capture, m)
    ensures Founded(build, Step(w, e), capture, m)
  {
    hide Yielded, After;
    var c :| c in w.compiled && Yielded(build, c, capture, m);
    assert c in Step(w, e).compiled;
  }

  lemma StepKeepsFounded(build: Compiler, w: World, e: Event)
    requires AllFounded(build, w) && Permitted(build, w, e)
    ensures AllFounded(build, Step(w, e))
  {
    hide Yielded, Founded, Allowed;
    var after := Step(w, e);
    forall id | id in after.store.captures ensures FoundedDirectory(build, after, after.store.captures[id]) {
      if e.Publish? && e.reached.Committed? && id == e.publication.Id() {
        FoundedStays(build, w, e, e.publication.capture.record, e.publication.instances.record);
      } else {
        assert FoundedDirectory(build, w, w.store.captures[id]);
        FoundedStays(build, w, e, w.store.captures[id].header.record, w.store.captures[id].instances.record);
      }
    }
  }

  lemma StepKeepsSoundness(build: Compiler, w: World, e: Event)
    requires Sound(build, w) && Permitted(build, w, e)
    ensures Sound(build, Step(w, e))
  {
    StepKeepsFounded(build, w, e);
    hide AllFounded, Founded, Consistent, Allowed, After;
    if e.Publish? {
      PublicationKeepsConsistency(w.store, e.publication, e.reached);
    }
  }

  lemma StartIsSound(build: Compiler)
    ensures Sound(build, World([], {}, {}, START))
  {
  }

  /** Every token is compiled on at most one input state, and every capture holds what its token compiled. */
  lemma {:induction false} EveryRunIsSound(build: Compiler, trace: seq<Event>, n: nat)
    requires Legal(build, trace) && n <= |trace|
    ensures Sound(build, Replay(trace, n))
  {
    hide Sound, Permitted, Step;
    if n == 0 {
      StartIsSound(build);
    } else {
      EveryRunIsSound(build, trace, n - 1);
      StepKeepsSoundness(build, Replay(trace, n - 1), trace[n - 1]);
    }
  }

  lemma CandidateIsFounded(build: Compiler, w: World, key: Name)
    requires Sound(build, w)
    ensures ReadCandidate(w.store, key).Ok?
    ensures match ReadCandidate(w.store, key).value
            case None => true
            case Some((capture, m)) => capture.analysis.requestKey == key && Founded(build, w, capture, m)
  {
    hide Yielded;
    if key in w.store.candidates {
      CandidateIsPresent(w.store, key);
      assert Holds(w.store, key, w.store.candidates[key]);
      var id := w.store.candidates[key].record.captureId;
      if id in w.store.captures {
        assert FoundedDirectory(build, w, w.store.captures[id]);
      }
    }
  }

  lemma FreshMeansCurrent(build: Compiler, w: World, capture: CaptureRecord, m: InstanceManifest)
    requires TokensOnce(w) && Founded(build, w, capture, m) && CanReportFresh(w, capture.analysis.token)
    ensures m == WithId(build(capture.analysis.requestKey, w.inputs), capture.id)
  {
    var c :| c in w.compiled && Yielded(build, c, capture, m);
    var d :| d in w.compiled && d.token == capture.analysis.token && d.inputs == w.inputs;
    assert c == d;
  }

  /**
   Over every run, at any moment, a candidate whose token Cargo can report fresh holds exactly the
   evidence that compiling its request on the current inputs would give.
   */
  lemma FreshCandidateIsCurrent(build: Compiler, trace: seq<Event>, n: nat, key: Name)
    requires Legal(build, trace) && n <= |trace|
    ensures var w := Replay(trace, n);
            ReadCandidate(w.store, key).Ok? &&
            match ReadCandidate(w.store, key).value
            case None => true
            case Some((capture, m)) =>
              CanReportFresh(w, capture.analysis.token) ==> m == WithId(build(key, w.inputs), capture.id)
  {
    var w := Replay(trace, n);
    EveryRunIsSound(build, trace, n);
    hide ReadCandidate, Consistent, AllFounded, Founded, TokensOnce, CanReportFresh;
    CandidateIsFounded(build, w, key);
    if ReadCandidate(w.store, key).value.Some? {
      var (capture, m) := ReadCandidate(w.store, key).value.value;
      if CanReportFresh(w, capture.analysis.token) {
        FreshMeansCurrent(build, w, capture, m);
      }
    }
  }

  // ---- Extending a run ----

  lemma {:induction false} ReplayOfExtension(trace: seq<Event>, longer: seq<Event>, n: nat)
    requires n <= |trace| && trace <= longer
    ensures Replay(longer, n) == Replay(trace, n)
  {
    hide Step;
    if n > 0 {
      ReplayOfExtension(trace, longer, n - 1);
    }
  }

  lemma LegalExtends(build: Compiler, trace: seq<Event>, e: Event)
    requires Legal(build, trace) && Permitted(build, Replay(trace, |trace|), e)
    ensures Legal(build, trace + [e])
    ensures Replay(trace + [e], |trace| + 1) == Step(Replay(trace, |trace|), e)
  {
    hide Permitted, Step;
    var more := trace + [e];
    ReplayOfExtension(trace, more, |trace|);
    forall n | 0 <= n < |more| ensures Permitted(build, Replay(more, n), more[n]) {
      ReplayOfExtension(trace, more, n);
    }
  }

  /** The inputs were these at some moment of a run, after its first `from` events. */
  ghost predicate Seen(trace: seq<Event>, from: nat, inputs: Inputs) {
    exists n :: from <= n <= |trace| && Replay(trace, n).inputs == inputs
  }

  lemma SeenStays(trace: seq<Event>, longer: seq<Event>, from: nat, inputs: Inputs)
    requires Seen(trace, from, inputs) && trace <= longer
    ensures Seen(longer, from, inputs)
  {
    hide Step;
    var n :| from <= n <= |trace| && Replay(trace, n).inputs == inputs;
    ReplayOfExtension(trace, longer, n);
  }

  lemma SeenEarlier(trace: seq<Event>, from: nat, later: nat, inputs: Inputs)
    requires Seen(trace, later, inputs) && from <= later
    ensures Seen(trace, from, inputs)
  {
  }
}
