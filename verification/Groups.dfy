/** What decoding makes of a record sequence: grouping, conservation, order, and when it is accepted. */
module Groups {
  import opened Base
  import opened Records
  import opened Wire
  import opened Protocol
  import opened Decoder
  import opened Paths
  import Codec
  import Manifests
  import Sorting

  // ---- Projections of a record sequence ----

  /** One instance's placements, each with the source it states, in stream order. */
  function RecordsOf(es: seq<Entry>, n: nat, k: Key): seq<(PlacementRecord, SourceAvailability)>
    requires n <= |es|
  {
    if n == 0 then []
    else
      var front := RecordsOf(es, n - 1, k);
      if es[n - 1].Placement? && es[n - 1].key == k then front + [(es[n - 1].placement, es[n - 1].source)] else front
  }

  function ArtifactsOf(es: seq<Entry>, n: nat): seq<ArtifactRecord>
    requires n <= |es|
  {
    if n == 0 then []
    else
      var front := ArtifactsOf(es, n - 1);
      if es[n - 1].SourceFile? then front + [ArtifactRecord(es[n - 1].id, SourceText, es[n - 1].length)] else front
  }

  function ModulesOf(es: seq<Entry>, n: nat): seq<ExpectedModule>
    requires n <= |es|
  {
    if n == 0 then []
    else
      var front := ModulesOf(es, n - 1);
      if es[n - 1].Module? then front + [ExpectedModule(es[n - 1].name, es[n - 1].path)] else front
  }

  /** Two sequences that differ only in how different instances', files' and modules' records interleave. */
  ghost predicate SameProjections(es: seq<Entry>, fs: seq<Entry>) {
    && (forall k :: RecordsOf(es, |es|, k) == RecordsOf(fs, |fs|, k))
    && ArtifactsOf(es, |es|) == ArtifactsOf(fs, |fs|)
    && ModulesOf(es, |es|) == ModulesOf(fs, |fs|)
  }

  // ---- When a sequence is accepted ----

  ghost predicate OneSource(rs: seq<(PlacementRecord, SourceAvailability)>) {
    forall i, j :: 0 <= i < j < |rs| ==> SameSource(rs[i].1, rs[j].1)
  }

  ghost predicate ModulesAllowed(c: Configuration, directory: Path, ms: seq<ExpectedModule>) {
    && (ms != [] ==> c.unsupported.None?)
    && (forall m :: m in ms ==> m.name != [] && IsChild(directory, PathOf(m.path)))
    && (forall i, j :: 0 <= i < j < |ms| ==> ms[i].name != ms[j].name && PathOf(ms[i].path) != PathOf(ms[j].path))
  }

  ghost predicate OneSourceEach(es: seq<Entry>, n: nat)
    requires n <= |es|
  {
    forall k :: OneSource(RecordsOf(es, n, k))
  }

  ghost predicate DistinctIds(artifacts: seq<ArtifactRecord>) {
    forall i, j :: 0 <= i < j < |artifacts| ==> artifacts[i].id != artifacts[j].id
  }

  ghost predicate Acceptable(c: Configuration, directory: Path, es: seq<Entry>, n: nat)
    requires n <= |es|
  {
    && OneSourceEach(es, n)
    && DistinctIds(ArtifactsOf(es, n))
    && ModulesAllowed(c, directory, ModulesOf(es, n))
  }

  /** The table after the first `n` entries. */
  function Fold(c: Configuration, directory: Path, es: seq<Entry>, n: nat): Result<Table, Failure>
    requires n <= |es|
  {
    if n == 0 then Ok(EMPTY)
    else
      var t :- Fold(c, directory, es, n - 1);
      Apply(c, directory, t, es[n - 1])
  }

  function Placements(rs: seq<(PlacementRecord, SourceAvailability)>): (ps: seq<PlacementRecord>)
    ensures |ps| == |rs| && forall i :: 0 <= i < |rs| ==> ps[i] == rs[i].0
  {
    seq(|rs|, i requires 0 <= i < |rs| => rs[i].0)
  }

  /** A group holds exactly an instance's placements, in stream order, and its first record's source. */
  ghost predicate Holds(groups: map<Key, Group>, k: Key, rs: seq<(PlacementRecord, SourceAvailability)>) {
    && (k in groups <==> rs != [])
    && (k in groups ==> groups[k] == Group(Placements(rs), rs[0].1))
  }

  ghost predicate GroupsHold(groups: map<Key, Group>, es: seq<Entry>, n: nat)
    requires n <= |es|
  {
    forall k :: Holds(groups, k, RecordsOf(es, n, k))
  }

  lemma GroupStep(groups: map<Key, Group>, k: Key, p: PlacementRecord, s: SourceAvailability,
                  rs: seq<(PlacementRecord, SourceAvailability)>)
    requires Holds(groups, k, rs) && OneSource(rs)
    ensures OneSource(rs + [(p, s)]) <==> k !in groups || SameSource(groups[k].source, s)
    ensures k !in groups ==> Holds(groups[k := Group([p], s)], k, rs + [(p, s)])
    ensures k in groups ==>
              Holds(groups[k := groups[k].(placements := groups[k].placements + [p])], k, rs + [(p, s)])
  {
    hide MeaningOf;
    var more := rs + [(p, s)];
    if rs != [] {
      assert more[0] == rs[0] && more[|rs|] == (p, s);
      assert Placements(more) == Placements(rs) + [p];
      if SameSource(rs[0].1, s) {
        forall i, j | 0 <= i < j < |more| ensures SameSource(more[i].1, more[j].1) {
          assert i == 0 || SameSource(rs[0].1, rs[i].1);
          if j < |rs| {
            assert more[j] == rs[j] && SameSource(rs[0].1, rs[j].1);
          }
        }
      }
    } else {
      assert Placements(more) == [p];
    }
  }

  lemma PlacementStep(c: Configuration, directory: Path, t: Table, es: seq<Entry>, n: nat)
    requires n < |es| && es[n].Placement?
    requires GroupsHold(t.groups, es, n) && OneSourceEach(es, n)
    ensures Apply(c, directory, t, es[n]).Ok? <==> OneSourceEach(es, n + 1)
    ensures Apply(c, directory, t, es[n]).Ok? ==> GroupsHold(Apply(c, directory, t, es[n]).value.groups, es, n + 1)
  {
    hide OneSource, Holds, SameSource;
    var e := es[n];
    assert Holds(t.groups, e.key, RecordsOf(es, n, e.key)) && OneSource(RecordsOf(es, n, e.key));
    GroupStep(t.groups, e.key, e.placement, e.source, RecordsOf(es, n, e.key));
    assert RecordsOf(es, n + 1, e.key) == RecordsOf(es, n, e.key) + [(e.placement, e.source)];
    var applied := Apply(c, directory, t, e);
    if applied.Err? {
      assert !OneSource(RecordsOf(es, n + 1, e.key));
    } else {
      var m := n + 1;
      forall k ensures OneSource(RecordsOf(es, m, k)) && Holds(applied.value.groups, k, RecordsOf(es, m, k)) {
        if k != e.key {
          OtherKey(t.groups, applied.value.groups, k, RecordsOf(es, n, k));
        }
      }
    }
  }

  lemma OtherKey(groups: map<Key, Group>, more: map<Key, Group>, k: Key, rs: seq<(PlacementRecord, SourceAvailability)>)
    requires Holds(groups, k, rs) && (k in groups <==> k in more) && (k in groups ==> more[k] == groups[k])
    ensures Holds(more, k, rs)
  {
  }

  lemma SourceFileStep(c: Configuration, directory: Path, t: Table, e: Entry)
    requires e.SourceFile? && DistinctIds(t.artifacts)
    ensures Apply(c, directory, t, e).Ok? <==> DistinctIds(t.artifacts + [ArtifactRecord(e.id, SourceText, e.length)])
  {
    var more := t.artifacts + [ArtifactRecord(e.id, SourceText, e.length)];
    if HasId(t.artifacts, e.id) {
      var a :| a in t.artifacts && a.id == e.id;
      var i :| 0 <= i < |t.artifacts| && t.artifacts[i] == a;
      assert more[i].id == more[|t.artifacts|].id;
    } else {
      forall i, j | 0 <= i < j < |more| ensures more[i].id != more[j].id {
        assert more[i] in t.artifacts;
      }
    }
  }

  lemma ModuleStep(c: Configuration, directory: Path, t: Table, e: Entry)
    requires e.Module? && ModulesAllowed(c, directory, t.modules)
    ensures Apply(c, directory, t, e).Ok?
       <==> ModulesAllowed(c, directory, t.modules + [ExpectedModule(e.name, e.path)])
  {
    hide PathOf, IsImmediate, IsChild;
    ImmediateIsChild(directory, PathOf(e.path));
    var more := t.modules + [ExpectedModule(e.name, e.path)];
    assert more[|t.modules|] == ExpectedModule(e.name, e.path);
    if HasModule(t.modules, e.name, PathOf(e.path)) {
      var m :| m in t.modules && (m.name == e.name || PathOf(m.path) == PathOf(e.path));
      var i :| 0 <= i < |t.modules| && t.modules[i] == m;
      assert more[i] == m;
    } else {
      forall i, j | 0 <= i < j < |more|
        ensures more[i].name != more[j].name && PathOf(more[i].path) != PathOf(more[j].path)
      {
        assert more[i] in t.modules;
      }
    }
  }

  /** The projections of a table, and the conditions that its own checks keep. */
  ghost predicate Represents(t: Table, es: seq<Entry>, n: nat)
    requires n <= |es|
  {
    GroupsHold(t.groups, es, n) && t.artifacts == ArtifactsOf(es, n) && t.modules == ModulesOf(es, n)
  }

  /** What the last entry leaves alone. */
  lemma OtherProjections(es: seq<Entry>, n: nat)
    requires n < |es|
    ensures !es[n].SourceFile? ==> ArtifactsOf(es, n + 1) == ArtifactsOf(es, n)
    ensures !es[n].Module? ==> ModulesOf(es, n + 1) == ModulesOf(es, n)
    ensures !es[n].Placement? ==> OneSourceEach(es, n + 1) == OneSourceEach(es, n)
    ensures !es[n].Placement? ==> forall groups :: GroupsHold(groups, es, n + 1) == GroupsHold(groups, es, n)
  {
    hide OneSource, Holds;
    if !es[n].Placement? {
      var m := n + 1;
      assert forall k :: RecordsOf(es, m, k) == RecordsOf(es, n, k);
      if OneSourceEach(es, n) {
        assert forall k :: OneSource(RecordsOf(es, m, k)) by {
          forall k ensures OneSource(RecordsOf(es, m, k)) {
            assert OneSource(RecordsOf(es, n, k));
          }
        }
      }
      if OneSourceEach(es, m) {
        forall k ensures OneSource(RecordsOf(es, n, k)) {
          assert OneSource(RecordsOf(es, m, k));
        }
      }
      forall groups ensures GroupsHold(groups, es, m) == GroupsHold(groups, es, n) {
        assert forall k :: Holds(groups, k, RecordsOf(es, m, k)) == Holds(groups, k, RecordsOf(es, n, k));
      }
    }
  }

  lemma OneSourcePrefix(rs: seq<(PlacementRecord, SourceAvailability)>, last: (PlacementRecord, SourceAvailability))
    requires OneSource(rs + [last])
    ensures OneSource(rs)
  {
    forall i, j | 0 <= i < j < |rs| ensures SameSource(rs[i].1, rs[j].1) {
      assert (rs + [last])[i] == rs[i] && (rs + [last])[j] == rs[j];
    }
  }

  lemma ModulesAllowedPrefix(c: Configuration, directory: Path, ms: seq<ExpectedModule>, last: ExpectedModule)
    requires ModulesAllowed(c, directory, ms + [last])
    ensures ModulesAllowed(c, directory, ms)
  {
    hide PathOf, IsImmediate, IsChild;
    var more := ms + [last];
    forall m | m in ms ensures m.name != [] && IsChild(directory, PathOf(m.path)) {
      assert m in more;
    }
    forall i, j | 0 <= i < j < |ms| ensures ms[i].name != ms[j].name && PathOf(ms[i].path) != PathOf(ms[j].path) {
      assert more[i] == ms[i] && more[j] == ms[j];
    }
  }

  lemma DistinctIdsPrefix(artifacts: seq<ArtifactRecord>, last: ArtifactRecord)
    requires DistinctIds(artifacts + [last])
    ensures DistinctIds(artifacts)
  {
    forall i, j | 0 <= i < j < |artifacts| ensures artifacts[i].id != artifacts[j].id {
      assert (artifacts + [last])[i] == artifacts[i] && (artifacts + [last])[j] == artifacts[j];
    }
  }

  /** A sequence is accepted only if each of its beginnings is. */
  lemma AcceptablePrefix(c: Configuration, directory: Path, es: seq<Entry>, n: nat)
    requires n < |es| && Acceptable(c, directory, es, n + 1)
    ensures Acceptable(c, directory, es, n)
  {
    hide OneSource, ModulesAllowed, DistinctIds;
    var m := n + 1;
    var e := es[n];
    forall k ensures OneSource(RecordsOf(es, n, k)) {
      assert OneSource(RecordsOf(es, m, k));
      if e.Placement? && e.key == k {
        OneSourcePrefix(RecordsOf(es, n, k), (e.placement, e.source));
      }
    }
    if e.SourceFile? {
      DistinctIdsPrefix(ArtifactsOf(es, n), ArtifactRecord(e.id, SourceText, e.length));
    }
    if e.Module? {
      ModulesAllowedPrefix(c, directory, ModulesOf(es, n), ExpectedModule(e.name, e.path));
    }
  }

  /** One entry is accepted exactly when the sequence that ends with it is. */
  lemma FoldStep(c: Configuration, directory: Path, t: Table, es: seq<Entry>, n: nat)
    requires n < |es| && Represents(t, es, n) && Acceptable(c, directory, es, n)
    ensures Apply(c, directory, t, es[n]).Ok? <==> Acceptable(c, directory, es, n + 1)
    ensures Apply(c, directory, t, es[n]).Ok? ==> Represents(Apply(c, directory, t, es[n]).value, es, n + 1)
  {
    hide OneSourceEach, ModulesAllowed, DistinctIds, GroupsHold, HasId, HasModule, PathOf, IsImmediate, IsChild;
    OtherProjections(es, n);
    match es[n]
    case Placement(_, _, _) => PlacementStep(c, directory, t, es, n);
    case SourceFile(_, _) => SourceFileStep(c, directory, t, es[n]);
    case Module(_, _) => ModuleStep(c, directory, t, es[n]);
  }

  lemma NothingIsAcceptable(c: Configuration, directory: Path, es: seq<Entry>)
    ensures Acceptable(c, directory, es, 0) && Represents(EMPTY, es, 0)
  {
  }

  /**
   A sequence of records is accepted exactly when each instance has one source, source IDs do not
   repeat, and modules are allowed, in place and unique. The table is then its projections.
   */
  lemma {:induction false} FoldIsProjection(c: Configuration, directory: Path, es: seq<Entry>, n: nat)
    requires n <= |es|
    ensures Fold(c, directory, es, n).Ok? <==> Acceptable(c, directory, es, n)
    ensures Fold(c, directory, es, n).Ok? ==> Represents(Fold(c, directory, es, n).value, es, n)
  {
    hide Acceptable, Represents, Apply;
    if n == 0 {
      NothingIsAcceptable(c, directory, es);
      return;
    }
    FoldIsProjection(c, directory, es, n - 1);
    if Fold(c, directory, es, n - 1).Ok? {
      FoldStep(c, directory, Fold(c, directory, es, n - 1).value, es, n - 1);
    } else if Acceptable(c, directory, es, n) {
      AcceptablePrefix(c, directory, es, n - 1);
    }
  }

  // ---- When a record is rejected ----

  /** Each rejection names its reason, by what the table already holds. */
  lemma RejectionIsNamed(c: Configuration, directory: Path, t: Table, e: Entry)
    ensures var r := Apply(c, directory, t, e);
            && (r == Err(ConflictingSource) <==>
                  e.Placement? && e.key in t.groups && !SameSource(t.groups[e.key].source, e.source))
            && (r == Err(DuplicateId) <==> e.SourceFile? && exists a :: a in t.artifacts && a.id == e.id)
            && (r == Err(UnexpectedModule) <==> e.Module? && !IsPlaced(c, directory, e))
            && (r == Err(DuplicateModule) <==>
                  && e.Module? && IsPlaced(c, directory, e)
                  && exists m :: m in t.modules && (m.name == e.name || PathOf(m.path) == PathOf(e.path)))
            && (r.Err? ==> r.error in {ConflictingSource, DuplicateId, UnexpectedModule, DuplicateModule})
  {
    hide PathOf, IsImmediate, IsChild, SameSource;
    if e.Module? {
      ImmediateIsChild(directory, PathOf(e.path));
    }
  }

  /** Modules are collected, and this one has a name and a file directly in the directory. */
  ghost predicate IsPlaced(c: Configuration, directory: Path, e: Entry)
    requires e.Module?
  {
    c.unsupported.None? && e.name != [] && IsChild(directory, PathOf(e.path))
  }

  /** An earlier record of the same instance with another source. */
  ghost predicate Conflicts(es: seq<Entry>, i: nat, n: nat) {
    && i < n < |es| && es[i].Placement? && es[n].Placement?
    && es[i].key == es[n].key && !SameSource(es[i].source, es[n].source)
  }

  lemma {:induction false} RecordOfEntry(es: seq<Entry>, n: nat, k: Key, r: (PlacementRecord, SourceAvailability))
    requires n <= |es|
    ensures r in RecordsOf(es, n, k) <==>
              exists i :: 0 <= i < n && es[i].Placement? && es[i].key == k && (es[i].placement, es[i].source) == r
  {
    if n > 0 {
      RecordOfEntry(es, n - 1, k, r);
    }
  }

  /** A placement is rejected exactly when some earlier record of its instance states another source. */
  lemma PlacementIsRejectedExactly(c: Configuration, directory: Path, t: Table, es: seq<Entry>, n: nat)
    requires n < |es| && es[n].Placement? && Represents(t, es, n) && Acceptable(c, directory, es, n)
    ensures Apply(c, directory, t, es[n]) == Err(ConflictingSource) <==> exists i: nat :: Conflicts(es, i, n)
    ensures Apply(c, directory, t, es[n]).Err? ==> Apply(c, directory, t, es[n]) == Err(ConflictingSource)
  {
    hide MeaningOf, ModulesAllowed, DistinctIds;
    var e := es[n];
    var rs := RecordsOf(es, n, e.key);
    assert Holds(t.groups, e.key, rs) && OneSource(rs);
    if Apply(c, directory, t, e).Err? {
      RecordOfEntry(es, n, e.key, rs[0]);
      var i :| 0 <= i < n && es[i].Placement? && es[i].key == e.key && (es[i].placement, es[i].source) == rs[0];
      assert Conflicts(es, i, n);
    }
    if i: nat :| Conflicts(es, i, n) {
      var r := (es[i].placement, es[i].source);
      RecordOfEntry(es, n, e.key, r);
      var j :| 0 <= j < |rs| && rs[j] == r;
      assert j == 0 || SameSource(rs[0].1, rs[j].1);
    }
  }

  /** The same place, spelled with a doubled separator. */
  function Spelled(path: Name, r: SourceRecord): SourceAvailability {
    Available(r.(displayPath := path))
  }

  const ONE_SEPARATOR: Name := ['s' as byte, SLASH, 'l' as byte]
  const TWO_SEPARATORS: Name := ['s' as byte, SLASH, SLASH, 'l' as byte]

  lemma TwoSpellingsOfOnePath()
    ensures PathOf(ONE_SEPARATOR) == PathOf(TWO_SEPARATORS) && ONE_SEPARATOR != TWO_SEPARATORS
  {
    var a, b := ONE_SEPARATOR, TWO_SEPARATORS;
    assert a[0..1] == ['s' as byte] == b[0..1] && a[2..3] == ['l' as byte] == b[3..4] && b[2..2] == [];
    assert Components(a, 2, 3) == Component(a[2..3], false) && Components(a, 2, 2) == Components(a, 2, 3);
    assert Components(a, 0, 1) == Component(a[0..1], true) + Components(a, 2, 2);
    assert Components(b, 3, 4) == Component(b[3..4], false) && Components(b, 3, 3) == Components(b, 3, 4);
    assert Components(b, 2, 2) == Component(b[2..2], false) + Components(b, 3, 3);
    assert Components(b, 0, 1) == Component(b[0..1], true) + Components(b, 2, 2);
  }

  /**
   Two records of one instance whose display paths differ only in spelling are both accepted, and
   the group keeps the first spelling, so the second record's own source is not reproduced.
   */
  lemma SpellingIsNoConflict(c: Configuration, directory: Path, k: Key, p: PlacementRecord, q: PlacementRecord,
                             r: SourceRecord)
    ensures var first, second := Spelled(ONE_SEPARATOR, r), Spelled(TWO_SEPARATORS, r);
            && first != second
            && Fold(c, directory, [Placement(k, p, first), Placement(k, q, second)], 2)
               == Ok(Table(map[k := Group([p, q], first)], [], []))
  {
    hide PathOf;
    TwoSpellingsOfOnePath();
    var first, second := Spelled(ONE_SEPARATOR, r), Spelled(TWO_SEPARATORS, r);
    var es := [Placement(k, p, first), Placement(k, q, second)];
    var one := Table(map[k := Group([p], first)], [], []);
    assert Fold(c, directory, es, 1) == Ok(one) by {
      assert Fold(c, directory, es, 0) == Ok(EMPTY);
    }
    assert one.groups[k := Group([p, q], first)] == map[k := Group([p, q], first)];
    assert [p] + [q] == [p, q];
  }

  // ---- The whole stream ----

  /** From any entry on, running over the bytes is folding over the entries that they hold. */
  lemma {:induction false} RunIsFold(bytes: seq<byte>, i: nat, c: Configuration, directory: Path, es: seq<Entry>,
                                     n: nat)
    requires n <= |es| && Fold(c, directory, es, n).Ok?
    requires Codec.ReadEntries(bytes, i) == Ok(Got(es[n..], |bytes|))
    ensures var run := Run(bytes, i, c, directory, Fold(c, directory, es, n).value);
            run.Ok? == Fold(c, directory, es, |es|).Ok? && (run.Ok? ==> run == Fold(c, directory, es, |es|))
    decreases |es| - n
  {
    hide ReadEntry, Apply;
    Codec.EntryAdvances(bytes, i);
    var e := ReadEntry(bytes, i).value;
    if n < |es| {
      assert es[n..][0] == es[n] && es[n..][1..] == es[n + 1..];
      if Fold(c, directory, es, n + 1).Ok? {
        RunIsFold(bytes, e.next, c, directory, es, n + 1);
      } else {
        FoldStaysFailed(c, directory, es, n + 1, |es|);
      }
    }
  }

  lemma {:induction false} FoldStaysFailed(c: Configuration, directory: Path, es: seq<Entry>, i: nat, n: nat)
    requires i <= n <= |es| && Fold(c, directory, es, i).Err?
    ensures Fold(c, directory, es, n).Err?
    decreases n - i
  {
    hide Apply;
    if i < n {
      FoldStaysFailed(c, directory, es, i, n - 1);
    }
  }

  /** A run that succeeds has read a whole sequence of entries. */
  lemma {:induction false} RunReadsEntries(bytes: seq<byte>, i: nat, c: Configuration, directory: Path, t: Table)
    requires Run(bytes, i, c, directory, t).Ok?
    ensures Codec.ReadEntries(bytes, i).Ok? && Codec.ReadEntries(bytes, i).value.next == |bytes|
    decreases |bytes| - i
  {
    hide ReadEntry, Apply;
    Codec.EntryAdvances(bytes, i);
    var e := ReadEntry(bytes, i).value;
    if e.value.Some? {
      RunReadsEntries(bytes, e.next, c, directory, Apply(c, directory, t, e.value.value).value);
    }
  }

  /** Decoding accumulates a table exactly when the stream is well formed and its records are acceptable. */
  lemma AccumulatedIsProjection(bytes: seq<byte>, marker: Name, directory: Path)
    ensures Accumulated(bytes, marker, directory).Ok? <==>
              && Codec.ReadStream(bytes, marker).Ok?
              && var (c, es) := Codec.ReadStream(bytes, marker).value; Acceptable(c, directory, es, |es|)
    ensures Accumulated(bytes, marker, directory).Ok? ==>
              var (c, es) := Codec.ReadStream(bytes, marker).value;
              && Accumulated(bytes, marker, directory).value.0 == c
              && Represents(Accumulated(bytes, marker, directory).value.1, es, |es|)
  {
    hide ReadHeader, ReadConfiguration, Codec.ReadEntries, Run, Acceptable, Represents, Fold;
    var stream := Codec.ReadStream(bytes, marker);
    if stream.Ok? {
      var (c, es) := stream.value;
      var i := ReadConfiguration(bytes, ReadHeader(bytes, 0, marker).value.next).value.next;
      FoldStarts(c, directory, es);
      assert es[0..] == es;
      RunIsFold(bytes, i, c, directory, es, 0);
      FoldIsProjection(c, directory, es, |es|);
    } else if Accumulated(bytes, marker, directory).Ok? {
      var got := ReadConfiguration(bytes, ReadHeader(bytes, 0, marker).value.next).value;
      RunReadsEntries(bytes, got.next, got.value, directory, EMPTY);
    }
  }

  lemma FoldStarts(c: Configuration, directory: Path, es: seq<Entry>)
    ensures Fold(c, directory, es, 0) == Ok(EMPTY)
  {
  }

  lemma SameTables(t: Table, u: Table, es: seq<Entry>, fs: seq<Entry>)
    requires SameProjections(es, fs) && Represents(t, es, |es|) && Represents(u, fs, |fs|)
    ensures t == u
  {
    forall k ensures k in t.groups <==> k in u.groups
             ensures k in t.groups ==> t.groups[k] == u.groups[k] {
      assert Holds(t.groups, k, RecordsOf(es, |es|, k)) && Holds(u.groups, k, RecordsOf(fs, |fs|, k));
    }
    assert t.groups == u.groups;
  }

  lemma SameAcceptance(c: Configuration, directory: Path, es: seq<Entry>, fs: seq<Entry>)
    requires SameProjections(es, fs) && Acceptable(c, directory, es, |es|)
    ensures Acceptable(c, directory, fs, |fs|)
  {
    hide OneSource, DistinctIds, ModulesAllowed;
    forall k ensures OneSource(RecordsOf(fs, |fs|, k)) {
      assert OneSource(RecordsOf(es, |es|, k));
    }
  }

  /**
   The result does not depend on how the records of different instances, files and modules
   interleave: both streams are rejected, or both give the same manifest.
   */
  lemma InterleavingDoesNotMatter(a: seq<byte>, b: seq<byte>, marker: Name, directory: Path, c: Configuration,
                                  es: seq<Entry>, fs: seq<Entry>, r: Result<CompilerManifest, Failure>,
                                  s: Result<CompilerManifest, Failure>)
    requires Codec.ReadStream(a, marker) == Ok((c, es)) && Codec.ReadStream(b, marker) == Ok((c, fs))
    requires SameProjections(es, fs)
    requires Decodes(a, marker, directory, r) && Decodes(b, marker, directory, s)
    ensures r.Ok? == s.Ok? && (r.Ok? ==> r == s)
  {
    AccumulatedIsProjection(a, marker, directory);
    AccumulatedIsProjection(b, marker, directory);
    hide Accumulated, SameProjections, Acceptable, Represents, Assembled, InOrder, Codec.ReadStream;
    if Acceptable(c, directory, es, |es|) {
      SameAcceptance(c, directory, es, fs);
      var (_, t) := Accumulated(a, marker, directory).value;
      var (_, u) := Accumulated(b, marker, directory).value;
      SameTables(t, u, es, fs);
      var keys :| Completes(keys, c, t, r);
      var others :| Completes(others, c, u, s);
      OneOrder(keys, others, t.groups);
    } else if Acceptable(c, directory, fs, |fs|) {
      SameIsSymmetric(es, fs);
      SameAcceptance(c, directory, fs, es);
    }
  }

  lemma SameIsSymmetric(es: seq<Entry>, fs: seq<Entry>)
    requires SameProjections(es, fs)
    ensures SameProjections(fs, es)
  {
  }

  function KeyOf(i: InstanceRecord): Key {
    Key(i.definition.crateName, i.definition.definitionPath, i.displayName, i.rawSymbol)
  }

  function KeysOf(instances: seq<InstanceRecord>): (keys: seq<Key>)
    ensures |keys| == |instances| && forall n :: 0 <= n < |keys| ==> keys[n] == KeyOf(instances[n])
  {
    seq(|instances|, n requires 0 <= n < |instances| => KeyOf(instances[n]))
  }

  /** An instance has exactly its records' placements, in stream order, and the first spelling of their one source. */
  ghost predicate Collects(i: InstanceRecord, rs: seq<(PlacementRecord, SourceAvailability)>) {
    && rs != []
    && i.placements == Placements(rs)
    && i.source == rs[0].1
    && forall n :: 0 <= n < |rs| ==> SameSource(i.source, rs[n].1)
  }

  lemma {:induction false} AssembledInstances(keys: seq<Key>, groups: map<Key, Group>, n: nat)
    requires n <= |keys| && (forall k :: k in keys ==> k in groups) && Assembled(keys, groups, n).Ok?
    ensures var instances := Assembled(keys, groups, n).value;
            |instances| == n && forall i :: 0 <= i < n ==> instances[i] == InstanceOf(keys[i], groups[keys[i]])
  {
    hide ValidKey;
    if n > 0 {
      AssembledInstances(keys, groups, n - 1);
    }
  }

  lemma GroupCollects(k: Key, groups: map<Key, Group>, rs: seq<(PlacementRecord, SourceAvailability)>)
    requires Holds(groups, k, rs) && OneSource(rs) && k in groups
    ensures Collects(InstanceOf(k, groups[k]), rs) && KeyOf(InstanceOf(k, groups[k])) == k
  {
    forall n | 0 <= n < |rs| ensures SameSource(rs[0].1, rs[n].1) {
    }
  }

  /**
   A decoded manifest has one instance for each key that has records, in ascending key order, and
   each collects its records. Nothing is lost, repeated or moved between instances.
   */
  lemma DecodedInstances(bytes: seq<byte>, marker: Name, directory: Path, m: CompilerManifest)
    requires Decodes(bytes, marker, directory, Ok(m))
    ensures Codec.ReadStream(bytes, marker).Ok?
    ensures var es, keys := Codec.ReadStream(bytes, marker).value.1, KeysOf(m.instances);
            && Ascending(keys)
            && (forall k :: k in keys <==> RecordsOf(es, |es|, k) != [])
            && (forall i :: i in m.instances ==> Collects(i, RecordsOf(es, |es|, KeyOf(i))))
  {
    AccumulatedIsProjection(bytes, marker, directory);
    hide Accumulated, Codec.ReadStream, KeyLeq, KeyLess, OneSource, Holds;
    var (c, es) := Codec.ReadStream(bytes, marker).value;
    var t := Accumulated(bytes, marker, directory).value.1;
    var keys :| Completes(keys, c, t, Ok(m));
    AscendingIsSorted(keys);
    AssembledInstances(keys, t.groups, |keys|);
    assert KeysOf(m.instances) == keys;
    forall k ensures k in keys <==> RecordsOf(es, |es|, k) != [] {
      HoldsMembers(t.groups, k, RecordsOf(es, |es|, k));
    }
    forall i | i in m.instances ensures Collects(i, RecordsOf(es, |es|, KeyOf(i))) {
      var n :| 0 <= n < |m.instances| && m.instances[n] == i;
      assert OneSource(RecordsOf(es, |es|, keys[n])) && Holds(t.groups, keys[n], RecordsOf(es, |es|, keys[n]));
      GroupCollects(keys[n], t.groups, RecordsOf(es, |es|, keys[n]));
    }
  }

  lemma HoldsMembers(groups: map<Key, Group>, k: Key, rs: seq<(PlacementRecord, SourceAvailability)>)
    requires Holds(groups, k, rs)
    ensures k in groups <==> rs != []
  {
  }

  lemma {:induction false} ArtifactsAreSources(es: seq<Entry>, n: nat)
    requires n <= |es|
    ensures forall a :: a in ArtifactsOf(es, n) ==> a.kind.SourceText?
  {
    if n > 0 {
      ArtifactsAreSources(es, n - 1);
    }
  }

  /** What a decoded manifest brings to module collection and to manifest construction. */
  lemma DecodedManifestIsCollectable(bytes: seq<byte>, marker: Name, directory: Path, m: CompilerManifest)
    requires Decodes(bytes, marker, directory, Ok(m))
    ensures Distinct(Manifests.Ids(m.artifacts)) && forall a :: a in m.artifacts ==> a.kind.SourceText?
    ensures forall i, j :: 0 <= i < j < |m.modules| ==> m.modules[i].name != m.modules[j].name
    ensures forall e :: e in m.modules ==> e.name != [] && m.configuration.unsupported.None?
    ensures Distinct(Manifests.Identities(m.instances))
  {
    AccumulatedIsProjection(bytes, marker, directory);
    DecodedInstances(bytes, marker, directory, m);
    hide Accumulated, Codec.ReadStream, KeyLeq, OneSourceEach, GroupsHold, PathOf, IsImmediate, IsChild, Collects;
    var (c, es) := Codec.ReadStream(bytes, marker).value;
    var t := Accumulated(bytes, marker, directory).value.1;
    assert m.artifacts == t.artifacts && m.modules == t.modules && m.configuration == c;
    ArtifactsAreSources(es, |es|);
    forall i, j | 0 <= i < j < |m.instances|
      ensures Manifests.Identities(m.instances)[i] != Manifests.Identities(m.instances)[j]
    {
      assert KeysOf(m.instances)[i] != KeysOf(m.instances)[j];
    }
  }
}
