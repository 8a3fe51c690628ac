/** The records of the driver's manifest stream, their rows of fields, and how they are read. */
module Protocol {
  import opened Base
  import opened Wire
  import Records

  const MAGIC: seq<byte> := Text("CARGO_OPTIC_1\0\0\0")
  const PROTOCOL_VERSION: nat := 3

  const END_RECORD: nat := 0
  const PLACEMENT_RECORD: nat := 1
  const CONFIGURATION_RECORD: nat := 2
  const SOURCE_FILE_RECORD: nat := 3
  const MODULE_RECORD: nat := 4

  const LLVM_RECIPE_REVISION: nat := 1

  /** What groups placements into one instance. */
  datatype Key = Key(crateName: Name, definitionPath: Name, displayName: Name, rawSymbol: Name)

  datatype Entry =
    | Placement(key: Key, placement: Records.PlacementRecord, source: Records.SourceAvailability)
    | SourceFile(id: nat, length: nat)
    | Module(name: Name, path: Name)

  datatype Configuration = Configuration(
    backend: Name,
    target: Name,
    optimization: Name,
    lto: Records.LlvmLto,
    incremental: bool,
    linkerPlugin: bool,
    codegenUnits: nat,
    unsupported: Option<Records.Unsupported>)

  // ---- Codes ----

  function LtoCode(lto: Records.LlvmLto): nat {
    match lto
    case Off => 0
    case LocalThin => 1
    case CrossCrateThin => 2
    case Fat => 3
  }

  function LtoOf(code: nat): Option<Records.LlvmLto> {
    if code == 0 then Some(Records.Off)
    else if code == 1 then Some(Records.LocalThin)
    else if code == 2 then Some(Records.CrossCrateThin)
    else if code == 3 then Some(Records.Fat)
    else None
  }

  function SupportCode(unsupported: Option<Records.Unsupported>): nat {
    match unsupported
    case None => 0
    case Some(Incremental) => 1
    case Some(CrossCrateThinLto) => 2
    case Some(FatLto) => 3
    case Some(LinkerPluginLto) => 4
    case Some(OtherBackend) => 5
    case Some(UnverifiedCompiler) => 6
  }

  function SupportOf(code: nat): Option<Option<Records.Unsupported>> {
    if code == 0 then Some(None)
    else if code == 1 then Some(Some(Records.Incremental))
    else if code == 2 then Some(Some(Records.CrossCrateThinLto))
    else if code == 3 then Some(Some(Records.FatLto))
    else if code == 4 then Some(Some(Records.LinkerPluginLto))
    else if code == 5 then Some(Some(Records.OtherBackend))
    else if code == 6 then Some(Some(Records.UnverifiedCompiler))
    else None
  }

  /** The code of an unavailable source; zero introduces the fields of an available one. */
  function ReasonCode(reason: Records.SourceUnavailable): nat {
    match reason
    case Nonlocal => 1
    case Unloaded => 2
    case Generated => 3
    case UnsupportedSpan => 4
    case OutsidePackage => 5
  }

  function ReasonOf(code: nat): Option<Records.SourceUnavailable> {
    if code == 1 then Some(Records.Nonlocal)
    else if code == 2 then Some(Records.Unloaded)
    else if code == 3 then Some(Records.Generated)
    else if code == 4 then Some(Records.UnsupportedSpan)
    else if code == 5 then Some(Records.OutsidePackage)
    else None
  }

  // ---- Rows ----

  function KeyRow(k: Key, tail: Row): Row {
    Then(Str(k.crateName), Then(Str(k.definitionPath), Then(Str(k.displayName), Then(Str(k.rawSymbol), tail))))
  }

  function PlacementRow(p: Records.PlacementRecord, tail: Row): Row {
    Then(Str(p.codegenUnit), Then(Str(p.linkage), Then(Str(p.visibility),
      Then(Flag(p.localCopy), Then(U64(p.sizeEstimate), tail)))))
  }

  function SourceRow(s: Records.SourceAvailability, tail: Row): Row {
    match s
    case Available(r) =>
      Then(U32(0), Then(U64(r.artifact), Then(U64(r.range.start), Then(U64(r.range.length),
        Then(Str(r.displayPath), Then(U64(r.startingLine), tail))))))
    case Unavailable(reason) => Then(U32(ReasonCode(reason)), tail)
  }

  function EntryRow(e: Entry, tail: Row): Row {
    match e
    case Placement(k, p, s) => Then(U32(PLACEMENT_RECORD), KeyRow(k, PlacementRow(p, SourceRow(s, tail))))
    case SourceFile(id, length) => Then(U32(SOURCE_FILE_RECORD), Then(U64(id), Then(U64(length), tail)))
    case Module(name, path) => Then(U32(MODULE_RECORD), Then(Str(name), Then(Str(path), tail)))
  }

  function ConfigurationRow(c: Configuration, tail: Row): Row {
    Then(U32(CONFIGURATION_RECORD), Then(Str(c.backend), Then(Str(c.target), Then(Str(c.optimization),
      Then(U32(LtoCode(c.lto)), Then(Flag(c.incremental), Then(Flag(c.linkerPlugin), Then(U32(c.codegenUnits),
        Then(U32(LLVM_RECIPE_REVISION), Then(U32(SupportCode(c.unsupported)), tail))))))))))
  }

  function HeaderRow(marker: Name, tail: Row): Row {
    Then(Raw(MAGIC), Then(U32(PROTOCOL_VERSION), Then(Str(marker), tail)))
  }

  /** The entries from index `k` on, and the end record. */
  function EntriesRow(entries: seq<Entry>, k: nat): Row
    requires k <= |entries|
    decreases |entries| - k
  {
    if k == |entries| then Then(U32(END_RECORD), End) else EntryRow(entries[k], EntriesRow(entries, k + 1))
  }

  function StreamRow(marker: Name, c: Configuration, entries: seq<Entry>): Row {
    HeaderRow(marker, ConfigurationRow(c, EntriesRow(entries, 0)))
  }

  // ---- Reading ----

  function ReadKey(bytes: seq<byte>, i: nat): Read<Key> {
    var crateName :- ReadString(bytes, i);
    var definitionPath :- ReadString(bytes, crateName.next);
    var displayName :- ReadString(bytes, definitionPath.next);
    var rawSymbol :- ReadString(bytes, displayName.next);
    Ok(Got(Key(crateName.value, definitionPath.value, displayName.value, rawSymbol.value), rawSymbol.next))
  }

  function ReadPlacement(bytes: seq<byte>, i: nat): Read<Records.PlacementRecord> {
    var unit :- ReadString(bytes, i);
    var linkage :- ReadString(bytes, unit.next);
    var visibility :- ReadString(bytes, linkage.next);
    var localCopy :- ReadBool(bytes, visibility.next);
    var size :- ReadU64(bytes, localCopy.next);
    var made := Records.MakePlacement(unit.value, linkage.value, visibility.value, localCopy.value, size.value);
    if made.Err? then Err(InvalidRecord) else Ok(Got(made.value, size.next))
  }

  function ReadAvailable(bytes: seq<byte>, i: nat): Read<Records.SourceAvailability> {
    var artifact :- ReadU64(bytes, i);
    var start :- ReadU64(bytes, artifact.next);
    var length :- ReadU64(bytes, start.next);
    var path :- ReadString(bytes, length.next);
    var line :- ReadU64(bytes, path.next);
    var range := Records.MakeRange(start.value, length.value);
    if range.Err? then Err(InvalidRecord)
    else
      var made := Records.MakeSource(artifact.value, range.value, path.value, line.value);
      if made.Err? then Err(InvalidRecord) else Ok(Got(Records.Available(made.value), line.next))
  }

  function ReadSource(bytes: seq<byte>, i: nat): Read<Records.SourceAvailability> {
    var code :- ReadU32(bytes, i);
    if code.value == 0 then ReadAvailable(bytes, code.next)
    else
      var reason := ReasonOf(code.value);
      if reason.None? then Err(Malformed) else Ok(Got(Records.Unavailable(reason.value), code.next))
  }

  function ReadInstancePlacement(bytes: seq<byte>, i: nat): Read<Entry> {
    var key :- ReadKey(bytes, i);
    var placement :- ReadPlacement(bytes, key.next);
    var source :- ReadSource(bytes, placement.next);
    Ok(Got(Placement(key.value, placement.value, source.value), source.next))
  }

  function ReadSourceFile(bytes: seq<byte>, i: nat): Read<Entry> {
    var id :- ReadU64(bytes, i);
    var length :- ReadU64(bytes, id.next);
    Ok(Got(SourceFile(id.value, length.value), length.next))
  }

  function ReadModule(bytes: seq<byte>, i: nat): Read<Entry> {
    var name :- ReadString(bytes, i);
    var path :- ReadString(bytes, name.next);
    Ok(Got(Module(name.value, path.value), path.next))
  }

  /** The next entry, or none at the end record. */
  function ReadEntry(bytes: seq<byte>, i: nat): Read<Option<Entry>> {
    var kind :- ReadU32(bytes, i);
    if kind.value == END_RECORD then Ok(Got(None, kind.next))
    else if kind.value == PLACEMENT_RECORD then Somewhere(ReadInstancePlacement(bytes, kind.next))
    else if kind.value == SOURCE_FILE_RECORD then Somewhere(ReadSourceFile(bytes, kind.next))
    else if kind.value == MODULE_RECORD then Somewhere(ReadModule(bytes, kind.next))
    else Err(Malformed)
  }

  function Somewhere(e: Read<Entry>): Read<Option<Entry>> {
    if e.Err? then Err(e.error) else Ok(Got(Some(e.value.value), e.value.next))
  }

  function ReadConfiguration(bytes: seq<byte>, i: nat): Read<Configuration> {
    var kind :- ReadU32(bytes, i);
    if kind.value != CONFIGURATION_RECORD then Err(Malformed)
    else
      var backend :- ReadString(bytes, kind.next);
      var target :- ReadString(bytes, backend.next);
      var optimization :- ReadString(bytes, target.next);
      var code :- ReadU32(bytes, optimization.next);
      var lto := LtoOf(code.value);
      if lto.None? then Err(Malformed)
      else
        var incremental :- ReadBool(bytes, code.next);
        var linkerPlugin :- ReadBool(bytes, incremental.next);
        var units :- ReadU32(bytes, linkerPlugin.next);
        var recipe :- ReadU32(bytes, units.next);
        if recipe.value != LLVM_RECIPE_REVISION then Err(Malformed)
        else
          var support :- ReadU32(bytes, recipe.next);
          var unsupported := SupportOf(support.value);
          if unsupported.None? then Err(Malformed)
          else Ok(Got(Configuration(backend.value, target.value, optimization.value, lto.value, incremental.value,
                                    linkerPlugin.value, units.value, unsupported.value), support.next))
  }

  function ReadHeader(bytes: seq<byte>, i: nat, marker: Name): Read<()> {
    if i + |MAGIC| > |bytes| then Err(Truncated)
    else if bytes[i..i + |MAGIC|] != MAGIC then Err(Malformed)
    else
      var version :- ReadU32(bytes, i + |MAGIC|);
      if version.value != PROTOCOL_VERSION then Err(Malformed)
      else
        var actual :- ReadString(bytes, version.next);
        if actual.value != marker then Err(Malformed) else Ok(Got((), actual.next))
  }

  // ---- What is read is what the rows say ----

  lemma KeyIsRead(bytes: seq<byte>, i: nat, k: Key, tail: Row, j: nat)
    ensures Reads(bytes, i, KeyRow(k, tail), j) <==> Yields(bytes, ReadKey(bytes, i), k, tail, j)
  {
    hide ReadString, Reads;
    var row := KeyRow(k, tail);
    var i1 := i + 4 + |k.crateName|;
    var i2 := i1 + 4 + |k.definitionPath|;
    StringStep(bytes, i, k.crateName, row.rest, j);
    StringStep(bytes, i1, k.definitionPath, row.rest.rest, j);
    StringStep(bytes, i2, k.displayName, row.rest.rest.rest, j);
    StringStep(bytes, i2 + 4 + |k.displayName|, k.rawSymbol, tail, j);
  }

  lemma PlacementIsRead(bytes: seq<byte>, i: nat, p: Records.PlacementRecord, tail: Row, j: nat)
    ensures Reads(bytes, i, PlacementRow(p, tail), j) && p.codegenUnit != [] && p.linkage != [] && p.visibility != []
       <==> Yields(bytes, ReadPlacement(bytes, i), p, tail, j)
  {
    hide ReadString, ReadBool, ReadU64, Reads, Flag;
    var row := PlacementRow(p, tail);
    var i1 := i + 4 + |p.codegenUnit|;
    var i2 := i1 + 4 + |p.linkage|;
    var i3 := i2 + 4 + |p.visibility|;
    StringStep(bytes, i, p.codegenUnit, row.rest, j);
    StringStep(bytes, i1, p.linkage, row.rest.rest, j);
    StringStep(bytes, i2, p.visibility, row.rest.rest.rest, j);
    FlagStep(bytes, i3, p.localCopy, row.rest.rest.rest.rest, j);
    U64Step(bytes, i3 + 4, p.sizeEstimate, tail, j);
  }

  predicate AdmissibleSource(s: Records.SourceAvailability) {
    s.Available? ==> s.source.range.End() <= U64_MAX && s.source.displayPath != [] && s.source.startingLine > 0
  }

  lemma SourceIsRead(bytes: seq<byte>, i: nat, s: Records.SourceAvailability, tail: Row, j: nat)
    ensures Reads(bytes, i, SourceRow(s, tail), j) && AdmissibleSource(s)
       <==> Yields(bytes, ReadSource(bytes, i), s, tail, j)
  {
    hide ReadString, ReadU32, ReadU64, Reads;
    var row := SourceRow(s, tail);
    U32Step(bytes, i, row.field.n, row.rest, j);
    if s.Available? {
      var r := s.source;
      U64Step(bytes, i + 4, r.artifact, row.rest.rest, j);
      U64Step(bytes, i + 12, r.range.start, row.rest.rest.rest, j);
      U64Step(bytes, i + 20, r.range.length, row.rest.rest.rest.rest, j);
      StringStep(bytes, i + 28, r.displayPath, row.rest.rest.rest.rest.rest, j);
      U64Step(bytes, i + 32 + |r.displayPath|, r.startingLine, tail, j);
    }
  }

  lemma ConfigurationIsRead(bytes: seq<byte>, i: nat, c: Configuration, tail: Row, j: nat)
    ensures Reads(bytes, i, ConfigurationRow(c, tail), j) <==> Yields(bytes, ReadConfiguration(bytes, i), c, tail, j)
  {
    hide ReadString, ReadBool, ReadU32, Reads, Flag, LtoCode, LtoOf, SupportCode, SupportOf;
    var row := ConfigurationRow(c, tail);
    var i1 := i + 8 + |c.backend|;
    var i2 := i1 + 4 + |c.target|;
    var i3 := i2 + 4 + |c.optimization|;
    var flags := row.rest.rest.rest.rest.rest;
    U32Step(bytes, i, CONFIGURATION_RECORD, row.rest, j);
    StringStep(bytes, i + 4, c.backend, row.rest.rest, j);
    StringStep(bytes, i1, c.target, row.rest.rest.rest, j);
    StringStep(bytes, i2, c.optimization, row.rest.rest.rest.rest, j);
    U32Step(bytes, i3, LtoCode(c.lto), flags, j);
    FlagStep(bytes, i3 + 4, c.incremental, flags.rest, j);
    FlagStep(bytes, i3 + 8, c.linkerPlugin, flags.rest.rest, j);
    U32Step(bytes, i3 + 12, c.codegenUnits, flags.rest.rest.rest, j);
    U32Step(bytes, i3 + 16, LLVM_RECIPE_REVISION, flags.rest.rest.rest.rest, j);
    U32Step(bytes, i3 + 20, SupportCode(c.unsupported), tail, j);
    LtoCodes(c.lto, ReadU32(bytes, i3));
    SupportCodes(c.unsupported, ReadU32(bytes, i3 + 20));
  }

  lemma LtoCodes(lto: Records.LlvmLto, r: Read<nat>)
    ensures r.Ok? ==> (r.value.value == LtoCode(lto) <==> LtoOf(r.value.value) == Some(lto))
  {
  }

  lemma SupportCodes(unsupported: Option<Records.Unsupported>, r: Read<nat>)
    ensures r.Ok? ==> (r.value.value == SupportCode(unsupported) <==> SupportOf(r.value.value) == Some(unsupported))
  {
  }

  lemma HeaderIsRead(bytes: seq<byte>, i: nat, marker: Name, tail: Row, j: nat)
    ensures Reads(bytes, i, HeaderRow(marker, tail), j) <==> Yields(bytes, ReadHeader(bytes, i, marker), (), tail, j)
  {
    MagicStep(bytes, i, HeaderRow(marker, tail).rest, j);
    hide ReadString, ReadU32, Reads;
    U32Step(bytes, i + |MAGIC|, PROTOCOL_VERSION, Then(Str(marker), tail), j);
    StringStep(bytes, i + |MAGIC| + 4, marker, tail, j);
  }

  lemma MagicStep(bytes: seq<byte>, i: nat, rest: Row, j: nat)
    ensures Reads(bytes, i, Then(Raw(MAGIC), rest), j) <==>
              i + |MAGIC| <= |bytes| && bytes[i..i + |MAGIC|] == MAGIC && Reads(bytes, i + |MAGIC|, rest, j)
  {
    if Occurs(bytes, i, MAGIC) {
      assert bytes[i..i + |MAGIC|] == MAGIC;
    }
  }

  /** The records that their constructors accept. */
  predicate Admissible(e: Entry) {
    e.Placement? ==>
      && e.placement.codegenUnit != [] && e.placement.linkage != [] && e.placement.visibility != []
      && AdmissibleSource(e.source)
  }

  lemma EntryIsRead(bytes: seq<byte>, i: nat, e: Entry, tail: Row, j: nat)
    ensures Reads(bytes, i, EntryRow(e, tail), j) && Admissible(e)
       <==> Yields(bytes, ReadEntry(bytes, i), Some(e), tail, j)
  {
    hide ReadString, ReadU32, ReadU64, Reads, ReadKey, ReadPlacement, ReadSource, KeyRow, PlacementRow, SourceRow,
      AdmissibleSource;
    var row := EntryRow(e, tail);
    U32Step(bytes, i, row.field.n, row.rest, j);
    match e
    case Placement(k, p, s) =>
      KeyIsRead(bytes, i + 4, k, PlacementRow(p, SourceRow(s, tail)), j);
      if ReadKey(bytes, i + 4).Ok? {
        var i1 := ReadKey(bytes, i + 4).value.next;
        PlacementIsRead(bytes, i1, p, SourceRow(s, tail), j);
        if ReadPlacement(bytes, i1).Ok? {
          SourceIsRead(bytes, ReadPlacement(bytes, i1).value.next, s, tail, j);
        }
      }
    case SourceFile(id, length) =>
      U64Step(bytes, i + 4, id, row.rest.rest, j);
      U64Step(bytes, i + 12, length, tail, j);
    case Module(name, path) =>
      StringStep(bytes, i + 4, name, row.rest.rest, j);
      StringStep(bytes, i + 8 + |name|, path, tail, j);
  }
}
