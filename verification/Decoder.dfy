/** The manifest decoder: one pass over the stream, checks as it goes, and placements grouped by instance. */
module Decoder {
  import opened Base
  import opened Records
  import opened Wire
  import opened Protocol
  import opened Paths
  import Codec
  import Sorting
  import Utf8

  // ---- Sources ----

  /** What two source relationships must share to be equal: display paths count by their components. */
  datatype Meaning = Reason(reason: SourceUnavailable) | Place(artifact: nat, range: ByteRange, path: Path, line: nat)

  function MeaningOf(s: SourceAvailability): Meaning {
    match s
    case Unavailable(reason) => Reason(reason)
    case Available(r) => Place(r.artifact, r.range, PathOf(r.displayPath), r.startingLine)
  }

  predicate SameSource(a: SourceAvailability, b: SourceAvailability): (same: bool)
    ensures a.Unavailable? || b.Unavailable? ==> (same <==> a == b)
    ensures a.Available? && b.Available? ==>
              (same <==> a.source.(displayPath := []) == b.source.(displayPath := [])
                         && PathOf(a.source.displayPath) == PathOf(b.source.displayPath))
  {
    MeaningOf(a) == MeaningOf(b)
  }

  // ---- What the decoder accumulates ----

  datatype Group = Group(placements: seq<PlacementRecord>, source: SourceAvailability)

  datatype ExpectedModule = ExpectedModule(name: Name, path: Name)

  datatype Table = Table(groups: map<Key, Group>, artifacts: seq<ArtifactRecord>, modules: seq<ExpectedModule>)

  const EMPTY: Table := Table(map[], [], [])

  datatype CompilerManifest = CompilerManifest(
    instances: seq<InstanceRecord>,
    artifacts: seq<ArtifactRecord>,
    configuration: Configuration,
    modules: seq<ExpectedModule>)

  /** Appends to the instance's group, or starts one. A group keeps its first record's spelling of the source. */
  function AddPlacement(t: Table, k: Key, p: PlacementRecord, s: SourceAvailability): Result<Table, Failure> {
    if k !in t.groups then Ok(t.(groups := t.groups[k := Group([p], s)]))
    else
      var existing := t.groups[k];
      if !SameSource(existing.source, s) then Err(ConflictingSource)
      else Ok(t.(groups := t.groups[k := existing.(placements := existing.placements + [p])]))
  }

  predicate HasId(artifacts: seq<ArtifactRecord>, id: nat) {
    exists a :: a in artifacts && a.id == id
  }

  function AddSourceFile(t: Table, id: nat, length: nat): Result<Table, Failure> {
    if HasId(t.artifacts, id) then Err(DuplicateId)
    else Ok(t.(artifacts := t.artifacts + [ArtifactRecord(id, SourceText, length)]))
  }

  predicate HasModule(modules: seq<ExpectedModule>, name: Name, path: Path) {
    exists m :: m in modules && (m.name == name || PathOf(m.path) == path)
  }

  function AddModule(c: Configuration, directory: Path, t: Table, name: Name, path: Name): Result<Table, Failure> {
    if c.unsupported.Some? || name == [] || !IsImmediate(directory, PathOf(path)) then Err(UnexpectedModule)
    else if HasModule(t.modules, name, PathOf(path)) then Err(DuplicateModule)
    else Ok(t.(modules := t.modules + [ExpectedModule(name, path)]))
  }

  function Apply(c: Configuration, directory: Path, t: Table, e: Entry): Result<Table, Failure> {
    match e
    case Placement(k, p, s) => AddPlacement(t, k, p, s)
    case SourceFile(id, length) => AddSourceFile(t, id, length)
    case Module(name, path) => AddModule(c, directory, t, name, path)
  }

  /** Reads and applies entries up to the end of the stream. */
  function Run(bytes: seq<byte>, i: nat, c: Configuration, directory: Path, t: Table): Result<Table, Failure>
    decreases |bytes| - i
  {
    var e :- ReadEntry(bytes, i);
    if e.value.None? then if e.next != |bytes| then Err(TrailingBytes) else Ok(t)
    else
      Codec.EntryAdvances(bytes, i);
      var next :- Apply(c, directory, t, e.value.value);
      Run(bytes, e.next, c, directory, next)
  }

  // ---- Instances in key order ----

  function KeyNames(k: Key): seq<Name> {
    [k.crateName, k.definitionPath, k.displayName, k.rawSymbol]
  }

  predicate KeyLeq(a: Key, b: Key) {
    Sorting.NamesLeq(KeyNames(a), KeyNames(b))
  }

  /** The keys of an ordered map, in the order that iteration yields them. */
  ghost predicate InOrder(keys: seq<Key>, groups: map<Key, Group>) {
    Sorting.Sorted(KeyLeq, keys) && Distinct(keys) && forall k :: k in keys <==> k in groups
  }

  lemma KeyLeqIsTotal()
    ensures Sorting.TotalOrder(KeyLeq)
  {
    hide Sorting.NamesLeq;
    forall a: Key, b: Key ensures KeyLeq(a, b) || KeyLeq(b, a) {
      Sorting.NamesLeqTotal(KeyNames(a), KeyNames(b));
    }
    forall a: Key, b: Key, c: Key | KeyLeq(a, b) && KeyLeq(b, c) ensures KeyLeq(a, c) {
      Sorting.NamesLeqTransitive(KeyNames(a), KeyNames(b), KeyNames(c));
    }
  }

  lemma KeyLeqIsAntisymmetric(a: Key, b: Key)
    requires KeyLeq(a, b) && KeyLeq(b, a)
    ensures a == b
  {
    Sorting.NamesLeqAntisymmetric(KeyNames(a), KeyNames(b));
    assert KeyNames(a)[0] == KeyNames(b)[0] && KeyNames(a)[1] == KeyNames(b)[1];
    assert KeyNames(a)[2] == KeyNames(b)[2] && KeyNames(a)[3] == KeyNames(b)[3];
  }

  /** Crate, then definition path, then display name, then symbol: the first that differs decides. */
  ghost predicate KeyLess(a: Key, b: Key) {
    if a.crateName != b.crateName then Sorting.TextLess(a.crateName, b.crateName)
    else if a.definitionPath != b.definitionPath then Sorting.TextLess(a.definitionPath, b.definitionPath)
    else if a.displayName != b.displayName then Sorting.TextLess(a.displayName, b.displayName)
    else Sorting.TextLess(a.rawSymbol, b.rawSymbol)
  }

  ghost predicate Ascending(keys: seq<Key>) {
    forall i, j :: 0 <= i < j < |keys| ==> KeyLess(keys[i], keys[j])
  }

  lemma KeyLeqIsLess(a: Key, b: Key)
    ensures KeyLeq(a, b) && a != b <==> KeyLess(a, b)
  {
    hide Sorting.NamesLeq, Sorting.TextLess;
    var xs, ys := KeyNames(a), KeyNames(b);
    if a == b {
      Sorting.NothingLess(a.rawSymbol);
    } else if a.crateName != b.crateName {
      Sorting.NamesLeqAt(xs, ys, 0);
    } else if a.definitionPath != b.definitionPath {
      Sorting.NamesLeqAt(xs, ys, 1);
    } else if a.displayName != b.displayName {
      Sorting.NamesLeqAt(xs, ys, 2);
    } else {
      Sorting.NamesLeqAt(xs, ys, 3);
    }
  }

  lemma AscendingIsSorted(keys: seq<Key>)
    ensures Ascending(keys) <==> Sorting.Sorted(KeyLeq, keys) && Distinct(keys)
  {
    hide KeyLeq, KeyLess;
    forall i, j | 0 <= i < j < |keys|
      ensures KeyLeq(keys[i], keys[j]) && keys[i] != keys[j] <==> KeyLess(keys[i], keys[j])
    {
      KeyLeqIsLess(keys[i], keys[j]);
    }
  }

  /** Iteration order is determined by the keys alone. */
  lemma OneOrder(a: seq<Key>, b: seq<Key>, groups: map<Key, Group>)
    requires InOrder(a, groups) && InOrder(b, groups)
    ensures a == b
  {
    DistinctMultiset(a);
    DistinctMultiset(b);
    assert (set k | k in a) == (set k | k in b);
    hide KeyLeq;
    forall x, y | x in multiset(a) && y in multiset(a) && KeyLeq(x, y) && KeyLeq(y, x) ensures x == y {
      KeyLeqIsAntisymmetric(x, y);
    }
    Sorting.SortedIsUnique(KeyLeq, a, b);
  }

  method KeysInOrder(groups: map<Key, Group>) returns (keys: seq<Key>)
    ensures InOrder(keys, groups) && forall k :: k in keys ==> k in groups
  {
    KeyLeqIsTotal();
    hide KeyLeq;
    keys := [];
    var remaining := groups.Keys;
    while remaining != {}
      invariant remaining <= groups.Keys
      invariant Sorting.Sorted(KeyLeq, keys) && Distinct(keys)
      invariant forall k :: k in keys <==> k in groups && k !in remaining
      decreases |remaining|
    {
      var k :| k in remaining;
      Sorting.InsertSorts(KeyLeq, k, keys);
      InsertedOnce(k, keys);
      keys := Sorting.Insert(KeyLeq, k, keys);
      remaining := remaining - {k};
    }
  }

  lemma InsertedOnce(k: Key, keys: seq<Key>)
    requires Distinct(keys) && k !in keys
    ensures Distinct(Sorting.Insert(KeyLeq, k, keys))
    ensures forall x :: x in Sorting.Insert(KeyLeq, k, keys) <==> x in keys || x == k
  {
    var more := Sorting.Insert(KeyLeq, k, keys);
    Sorting.SameMembers(more, keys + [k]);
    DistinctMultiset(keys);
    forall i, j | 0 <= i < j < |more| ensures more[i] != more[j] {
      if more[i] == more[j] {
        Twice(more, i, j);
      }
      assert multiset(keys + [k])[more[i]] <= 1;
    }
  }

  /** The instances of the first `n` keys, each through the record constructors. */
  ghost function Assembled(keys: seq<Key>, groups: map<Key, Group>, n: nat): Result<seq<InstanceRecord>, Failure>
    requires n <= |keys| && forall k :: k in keys ==> k in groups
  {
    if n == 0 then Ok([])
    else
      var front :- Assembled(keys, groups, n - 1);
      var k := keys[n - 1];
      if !ValidKey(k, groups[k]) then Err(InvalidRecord) else Ok(front + [InstanceOf(k, groups[k])])
  }

  ghost predicate ValidKey(k: Key, g: Group) {
    && k.crateName != [] && k.definitionPath != []
    && ValidInstance(DefinitionRecord(k.crateName, k.definitionPath), k.displayName, k.rawSymbol, g.placements)
  }

  function InstanceOf(k: Key, g: Group): InstanceRecord {
    InstanceRecord(DefinitionRecord(k.crateName, k.definitionPath), k.displayName, k.rawSymbol, g.placements, g.source)
  }

  lemma {:induction false} FirstInvalidStands(keys: seq<Key>, groups: map<Key, Group>, i: nat, n: nat)
    requires i <= n <= |keys| && (forall k :: k in keys ==> k in groups) && Assembled(keys, groups, i).Err?
    ensures Assembled(keys, groups, n) == Err(InvalidRecord)
    decreases n - i
  {
    hide ValidKey;
    if i < n {
      FirstInvalidStands(keys, groups, i, n - 1);
    } else {
      ErrorIsInvalidField(keys, groups, n);
    }
  }

  lemma {:induction false} ErrorIsInvalidField(keys: seq<Key>, groups: map<Key, Group>, n: nat)
    requires n <= |keys| && (forall k :: k in keys ==> k in groups) && Assembled(keys, groups, n).Err?
    ensures Assembled(keys, groups, n) == Err(InvalidRecord)
  {
    hide ValidKey;
    if Assembled(keys, groups, n - 1).Err? {
      ErrorIsInvalidField(keys, groups, n - 1);
    }
  }

  method Assemble(groups: map<Key, Group>) returns (r: Result<seq<InstanceRecord>, Failure>, keys: seq<Key>)
    ensures InOrder(keys, groups) && (forall k :: k in keys ==> k in groups) && r == Assembled(keys, groups, |keys|)
  {
    hide ValidInstance, InOrder;
    keys := KeysInOrder(groups);
    var instances: seq<InstanceRecord> := [];
    for n := 0 to |keys|
      invariant Assembled(keys, groups, n) == Ok(instances)
    {
      var k := keys[n];
      if k.crateName == [] || k.definitionPath == [] {
        FirstInvalidStands(keys, groups, n + 1, |keys|);
        return Err(InvalidRecord), keys;
      }
      var g := groups[k];
      var definition := DefinitionRecord(k.crateName, k.definitionPath);
      var made := NewInstance(definition, k.displayName, k.rawSymbol, g.placements, g.source);
      if made.Err? {
        FirstInvalidStands(keys, groups, n + 1, |keys|);
        return Err(InvalidRecord), keys;
      }
      instances := instances + [made.value];
    }
    r := Ok(instances);
  }

  // ---- The decoder ----

  /** What one read does: the value and the new position, or the failure. */
  ghost predicate Took<T(!new)>(r: Result<T, Failure>, spec: Read<T>, position: nat) {
    match spec
    case Ok(got) => r == Ok(got.value) && position == got.next
    case Err(e) => r == Err(e)
  }

  /** The identities that must not repeat. */
  datatype Seen = Seen(ids: set<nat>, names: set<Name>, paths: set<Path>)

  ghost predicate Tracks(seen: Seen, t: Table) {
    && (forall id :: id in seen.ids <==> HasId(t.artifacts, id))
    && (forall name, path :: name in seen.names || path in seen.paths <==> HasModule(t.modules, name, path))
  }

  /** What reading one entry and applying it does. */
  ghost predicate Applied(r: Result<Table, Failure>, spec: Read<Entry>, c: Configuration, directory: Path, t: Table,
                          position: nat) {
    match spec
    case Err(e) => r == Err(e)
    case Ok(got) =>
      && r == Apply(c, directory, t, got.value)
      && (r.Ok? ==> position == got.next)
  }

  /** The configuration and everything accumulated, or the first failure in stream order. */
  function Accumulated(bytes: seq<byte>, marker: Name, directory: Path): Result<(Configuration, Table), Failure> {
    var header :- ReadHeader(bytes, 0, marker);
    var c :- ReadConfiguration(bytes, header.next);
    var t :- Run(bytes, c.next, c.value, directory, EMPTY);
    Ok((c.value, t))
  }

  /** The result of decoding: what was accumulated, with instances assembled in key order. */
  ghost predicate Decodes(bytes: seq<byte>, marker: Name, directory: Path, r: Result<CompilerManifest, Failure>) {
    match Accumulated(bytes, marker, directory)
    case Err(e) => r == Err(e)
    case Ok((c, t)) => exists keys :: Completes(keys, c, t, r)
  }

  ghost predicate Completes(keys: seq<Key>, c: Configuration, t: Table, r: Result<CompilerManifest, Failure>) {
    && InOrder(keys, t.groups)
    && match Assembled(keys, t.groups, |keys|)
       case Err(e) => r == Err(e)
       case Ok(instances) => r == Ok(CompilerManifest(instances, t.artifacts, c, t.modules))
  }

  function ReadKeyedPlacement(bytes: seq<byte>, i: nat): Read<(Key, PlacementRecord)> {
    var key :- ReadKey(bytes, i);
    var placement :- ReadPlacement(bytes, key.next);
    Ok(Got((key.value, placement.value), placement.next))
  }

  class ManifestDecoder {
    const bytes: seq<byte>
    const marker: Name
    const directory: Path
    var position: nat

    constructor (bytes: seq<byte>, marker: Name, directory: Path)
      ensures this.bytes == bytes && this.marker == marker && this.directory == directory && position == 0
    {
      this.bytes, this.marker, this.directory, this.position := bytes, marker, directory, 0;
    }

    method TakeU32() returns (r: Result<nat, Failure>)
      modifies this
      ensures Took(r, ReadU32(bytes, old(position)), position)
    {
      if position + 4 > |bytes| {
        return Err(Truncated);
      }
      r := Ok(Value(bytes, position, 4));
      position := position + 4;
    }

    method TakeU64() returns (r: Result<nat, Failure>)
      modifies this
      ensures Took(r, ReadU64(bytes, old(position)), position)
    {
      if position + 8 > |bytes| {
        return Err(Truncated);
      }
      r := Ok(Value(bytes, position, 8));
      position := position + 8;
    }

    method TakeBool() returns (r: Result<bool, Failure>)
      modifies this
      ensures Took(r, ReadBool(bytes, old(position)), position)
    {
      hide ReadU32;
      var code :- TakeU32();
      r := if code > 1 then Err(Malformed) else Ok(code == 1);
    }

    method TakeString() returns (r: Result<Name, Failure>)
      modifies this
      ensures Took(r, ReadString(bytes, old(position)), position)
    {
      hide ReadU32, Utf8.IsUtf8;
      var length :- TakeU32();
      if position + length > |bytes| {
        return Err(Truncated);
      }
      var text := bytes[position..position + length];
      position := position + length;
      r := if Utf8.IsUtf8(text) then Ok(text) else Err(Malformed);
    }

    method TakeHeader() returns (r: Result<(), Failure>)
      modifies this
      ensures Took(r, ReadHeader(bytes, old(position), marker), position)
    {
      hide ReadU32, ReadString;
      if position + |MAGIC| > |bytes| {
        return Err(Truncated);
      }
      var magic := bytes[position..position + |MAGIC|];
      position := position + |MAGIC|;
      if magic != MAGIC {
        return Err(Malformed);
      }
      var version :- TakeU32();
      if version != PROTOCOL_VERSION {
        return Err(Malformed);
      }
      var actual :- TakeString();
      r := if actual != marker then Err(Malformed) else Ok(());
    }

    method TakeConfiguration() returns (r: Result<Configuration, Failure>)
      modifies this
      ensures Took(r, ReadConfiguration(bytes, old(position)), position)
    {
      hide ReadU32, ReadString, ReadBool, LtoOf, SupportOf;
      var kind :- TakeU32();
      if kind != CONFIGURATION_RECORD {
        return Err(Malformed);
      }
      var backend :- TakeString();
      var target :- TakeString();
      var optimization :- TakeString();
      var code :- TakeU32();
      var lto := LtoOf(code);
      if lto.None? {
        return Err(Malformed);
      }
      var incremental :- TakeBool();
      var linkerPlugin :- TakeBool();
      var units :- TakeU32();
      var recipe :- TakeU32();
      if recipe != LLVM_RECIPE_REVISION {
        return Err(Malformed);
      }
      var support :- TakeU32();
      var unsupported := SupportOf(support);
      if unsupported.None? {
        return Err(Malformed);
      }
      r := Ok(Configuration(backend, target, optimization, lto.value, incremental, linkerPlugin,
                            units, unsupported.value));
    }

    method TakePlacement() returns (r: Result<(Key, PlacementRecord), Failure>)
      modifies this
      ensures Took(r, ReadKeyedPlacement(bytes, old(position)), position)
    {
      hide ReadU64, ReadString, ReadBool, MakePlacement;
      var crateName :- TakeString();
      var definitionPath :- TakeString();
      var displayName :- TakeString();
      var rawSymbol :- TakeString();
      var unit :- TakeString();
      var linkage :- TakeString();
      var visibility :- TakeString();
      var localCopy :- TakeBool();
      var size :- TakeU64();
      var made := MakePlacement(unit, linkage, visibility, localCopy, size);
      if made.Err? {
        return Err(InvalidRecord);
      }
      r := Ok((Key(crateName, definitionPath, displayName, rawSymbol), made.value));
    }

    method TakeSource() returns (r: Result<SourceAvailability, Failure>)
      modifies this
      ensures Took(r, ReadSource(bytes, old(position)), position)
    {
      hide ReadU32, ReadU64, ReadString, MakeRange, MakeSource, ReasonOf;
      var code :- TakeU32();
      if code == 0 {
        var artifact :- TakeU64();
        var start :- TakeU64();
        var length :- TakeU64();
        var path :- TakeString();
        var line :- TakeU64();
        var range := MakeRange(start, length);
        if range.Err? {
          return Err(InvalidRecord);
        }
        var made := MakeSource(artifact, range.value, path, line);
        return if made.Err? then Err(InvalidRecord) else Ok(Available(made.value));
      }
      var reason := ReasonOf(code);
      r := if reason.None? then Err(Malformed) else Ok(Unavailable(reason.value));
    }

    /** Reads one placement and its source, and adds it to its instance's group. */
    method TakeInstancePlacement(c: Configuration, t: Table) returns (r: Result<Table, Failure>)
      modifies this
      ensures Applied(r, ReadInstancePlacement(bytes, old(position)), c, directory, t, position)
      ensures r.Ok? ==> r.value.artifacts == t.artifacts && r.value.modules == t.modules
    {
      hide ReadKey, ReadPlacement, ReadSource, SameSource;
      var keyed :- TakePlacement();
      var key, placement := keyed.0, keyed.1;
      var source :- TakeSource();
      if key in t.groups {
        var existing := t.groups[key];
        if !SameSource(existing.source, source) {
          return Err(ConflictingSource);
        }
        return Ok(t.(groups := t.groups[key := existing.(placements := existing.placements + [placement])]));
      }
      r := Ok(t.(groups := t.groups[key := Group([placement], source)]));
    }

    method TakeSourceFile(c: Configuration, t: Table, seen: Seen) returns (r: Result<Table, Failure>, now: Seen)
      requires Tracks(seen, t)
      modifies this
      ensures Applied(r, ReadSourceFile(bytes, old(position)), c, directory, t, position)
      ensures r.Ok? ==> Tracks(now, r.value)
    {
      hide ReadU64;
      now := seen;
      var id :- TakeU64();
      var length :- TakeU64();
      if id in seen.ids {
        return Err(DuplicateId), now;
      }
      now := seen.(ids := seen.ids + {id});
      r := Ok(t.(artifacts := t.artifacts + [ArtifactRecord(id, SourceText, length)]));
    }

    method TakeExpectedModule(c: Configuration, t: Table, seen: Seen) returns (r: Result<Table, Failure>, now: Seen)
      requires Tracks(seen, t)
      modifies this
      ensures Applied(r, ReadModule(bytes, old(position)), c, directory, t, position)
      ensures r.Ok? ==> Tracks(now, r.value)
    {
      hide ReadString, PathOf, IsImmediate;
      now := seen;
      var name :- TakeString();
      var path :- TakeString();
      if c.unsupported.Some? {
        return Err(UnexpectedModule), now;
      }
      if name == [] || !IsImmediate(directory, PathOf(path)) {
        return Err(UnexpectedModule), now;
      }
      if name in seen.names || PathOf(path) in seen.paths {
        return Err(DuplicateModule), now;
      }
      now := seen.(names := seen.names + {name}, paths := seen.paths + {PathOf(path)});
      r := Ok(t.(modules := t.modules + [ExpectedModule(name, path)]));
    }

    /** Reads entries and applies each, up to an end record with nothing after it. */
    method TakeEntries(c: Configuration) returns (r: Result<Table, Failure>)
      modifies this
      ensures r == Run(bytes, old(position), c, directory, EMPTY)
    {
      hide ReadU32, ReadInstancePlacement, ReadSourceFile, ReadModule, Apply;
      var t, seen := EMPTY, Seen({}, {}, {});
      while true
        invariant Tracks(seen, t)
        invariant Run(bytes, position, c, directory, t) == Run(bytes, old(position), c, directory, EMPTY)
        decreases |bytes| - position
      {
        Codec.EntryAdvances(bytes, position);
        var kind :- TakeU32();
        if kind == END_RECORD {
          return if position != |bytes| then Err(TrailingBytes) else Ok(t);
        } else if kind == PLACEMENT_RECORD {
          t :- TakeInstancePlacement(c, t);
        } else if kind == SOURCE_FILE_RECORD {
          var next, now := TakeSourceFile(c, t, seen);
          t :- next;
          seen := now;
        } else if kind == MODULE_RECORD {
          var next, now := TakeExpectedModule(c, t, seen);
          t :- next;
          seen := now;
        } else {
          return Err(Malformed);
        }
      }
    }

    /** Decodes the whole stream. */
    method Decode() returns (r: Result<CompilerManifest, Failure>)
      requires position == 0
      modifies this
      ensures Decodes(bytes, marker, directory, r)
    {
      hide ReadHeader, ReadConfiguration, Run, Assembled, InOrder;
      var header := TakeHeader();
      if header.Err? {
        return Err(header.error);
      }
      var c :- TakeConfiguration();
      var t :- TakeEntries(c);
      var instances, keys := Assemble(t.groups);
      r := if instances.Err? then Err(instances.error)
           else Ok(CompilerManifest(instances.value, t.artifacts, c, t.modules));
      assert Completes(keys, c, t, r);
    }
  }
}
