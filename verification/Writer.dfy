/** The driver's manifest writer, which publishes a whole stream or nothing. */
module Writer {
  import opened Base
  import opened Records
  import opened Wire
  import opened Protocol
  import Codec
  import RecordIo
  import Utf8

  predicate TypedKey(k: Key) {
    && Utf8.IsUtf8(k.crateName) && Utf8.IsUtf8(k.definitionPath)
    && Utf8.IsUtf8(k.displayName) && Utf8.IsUtf8(k.rawSymbol)
  }

  predicate TypedUnit(p: PlacementRecord) {
    && Utf8.IsUtf8(p.codegenUnit) && Utf8.IsUtf8(p.linkage) && Utf8.IsUtf8(p.visibility)
    && p.sizeEstimate <= U64_MAX
  }

  predicate TypedSource(s: SourceAvailability) {
    s.Available? ==>
      && s.source.artifact <= U64_MAX && s.source.range.start <= U64_MAX
      && s.source.range.length <= U64_MAX && s.source.startingLine <= U64_MAX
  }

  /** What the types of a writer's arguments guarantee: text is UTF-8, integers have their width. */
  predicate Typed(e: Entry) {
    match e
    case Placement(k, p, s) => TypedKey(k) && TypedUnit(p) && TypedSource(s)
    case SourceFile(id, length) => id <= U64_MAX && length <= U64_MAX
    case Module(name, _) => Utf8.IsUtf8(name)
  }

  predicate TypedConfiguration(c: Configuration) {
    && Utf8.IsUtf8(c.backend) && Utf8.IsUtf8(c.target) && Utf8.IsUtf8(c.optimization)
    && c.codegenUnits <= U32_MAX
  }

  lemma CodesAreSmall(c: Configuration)
    ensures LtoCode(c.lto) < 4 && SupportCode(c.unsupported) < 7
  {
  }

  /** The end of a configuration's row: its numbers and flags. */
  function CodesRow(c: Configuration, tail: Row): Row {
    Then(U32(LtoCode(c.lto)), Then(Flag(c.incremental), Then(Flag(c.linkerPlugin), Then(U32(c.codegenUnits),
      Then(U32(LLVM_RECIPE_REVISION), Then(U32(SupportCode(c.unsupported)), tail))))))
  }

  datatype Fault = NotEncodable | WriteFailed

  /**
   A manifest under construction, in a temporary file that can fail at any byte. `todo` is the row
   still to be written, so that the text it will have when everything is written never changes.
   A string that cannot be encoded and a failing file stop the writer.
   */
  class ManifestWriter {
    const temporary: RecordIo.BufferedFile
    var published: Option<seq<byte>>
    ghost var todo: Row

    constructor (ghost row: Row, temporary: RecordIo.BufferedFile)
      ensures todo == row && this.temporary == temporary && published == None
    {
      this.temporary, published, todo := temporary, None, row;
    }

    ghost function Promised(): seq<byte>
      reads this, temporary
    {
      temporary.Accepted() + EncodeRow(todo)
    }

    /** What writing one field or record does when it succeeds, and what a failure means and leaves. */
    twostate predicate Wrote(new r: Result<(), Fault>, rest: Row)
      reads this, temporary
    {
      && published == old(published) && temporary.Valid()
      && match r
         case Ok(_) =>
           todo == rest && Promised() == old(Promised()) && (RepresentableRow(todo) <==> old(RepresentableRow(todo)))
         case Err(fault) =>
           && Explains(fault, old(RepresentableRow(todo)), old(Promised()))
           && RecordIo.IsPrefix(temporary.Accepted(), old(Promised()))
    }

    /** A field cannot be encoded, or the promised text does not fit into the file. */
    ghost predicate Explains(fault: Fault, representable: bool, promised: seq<byte>) {
      match fault
      case NotEncodable => !representable
      case WriteFailed => |promised| > temporary.capacity
    }

    lemma Splits(accepted: seq<byte>, text: seq<byte>, n: nat, rest: seq<byte>)
      requires n <= |text|
      ensures RecordIo.IsPrefix(accepted + text[..n], accepted + (text + rest))
      ensures n == |text| ==> (accepted + text[..n]) + rest == accepted + (text + rest)
    {
      assert text[..n] + (text[n..] + rest) == text + rest;
      assert accepted + (text + rest) == (accepted + text[..n]) + (text[n..] + rest);
    }

    method WriteField(f: Field) returns (r: Result<(), Fault>)
      requires temporary.Valid() && todo.Then? && todo.field == f && Representable(f)
      modifies this, temporary
      ensures Wrote(r, old(todo).rest)
    {
      hide Encode, Representable;
      var written, accepted := temporary.WriteAll(Encode(f));
      Splits(old(temporary.Accepted()), Encode(f), accepted, EncodeRow(todo.rest));
      if written.Err? {
        return Err(WriteFailed);
      }
      todo := todo.rest;
      r := Ok(());
    }

    method WriteString(value: Name) returns (r: Result<(), Fault>)
      requires temporary.Valid() && todo.Then? && todo.field == Str(value) && Utf8.IsUtf8(value)
      modifies this, temporary
      ensures Wrote(r, old(todo).rest)
    {
      if |value| > U32_MAX {
        return Err(NotEncodable);
      }
      r := WriteField(Str(value));
    }

    /** A path is written as text, which it might not be. */
    method WritePath(value: Name) returns (r: Result<(), Fault>)
      requires temporary.Valid() && todo.Then? && todo.field == Str(value)
      modifies this, temporary
      ensures Wrote(r, old(todo).rest)
    {
      if !Utf8.IsUtf8(value) {
        return Err(NotEncodable);
      }
      r := WriteString(value);
    }

    /** The four strings that identify an instance. */
    method WriteKey(k: Key, ghost tail: Row) returns (r: Result<(), Fault>)
      requires temporary.Valid() && todo == KeyRow(k, tail) && TypedKey(k)
      modifies this, temporary
      ensures Wrote(r, tail)
    {
      hide Encode, Representable, Utf8.IsUtf8;
      var _ :- WriteString(k.crateName);
      var _ :- WriteString(k.definitionPath);
      var _ :- WriteString(k.displayName);
      r := WriteString(k.rawSymbol);
    }

    method WriteUnit(p: PlacementRecord, ghost tail: Row) returns (r: Result<(), Fault>)
      requires temporary.Valid() && todo == PlacementRow(p, tail) && TypedUnit(p)
      modifies this, temporary
      ensures Wrote(r, tail)
    {
      hide Encode, EncodeRow, RepresentableRow, Utf8.IsUtf8;
      var _ :- WriteString(p.codegenUnit);
      var _ :- WriteString(p.linkage);
      var _ :- WriteString(p.visibility);
      var _ :- WriteField(Flag(p.localCopy));
      r := WriteField(U64(p.sizeEstimate));
    }

    method WriteSource(s: SourceAvailability, ghost tail: Row) returns (r: Result<(), Fault>)
      requires temporary.Valid() && todo == SourceRow(s, tail) && TypedSource(s)
      modifies this, temporary
      ensures Wrote(r, tail)
    {
      hide Encode, EncodeRow, RepresentableRow, Utf8.IsUtf8;
      match s {
        case Unavailable(reason) =>
          r := WriteField(U32(ReasonCode(reason)));
        case Available(record) =>
          var _ :- WriteField(U32(0));
          var _ :- WriteField(U64(record.artifact));
          var _ :- WriteField(U64(record.range.start));
          var _ :- WriteField(U64(record.range.length));
          var _ :- WritePath(record.displayPath);
          r := WriteField(U64(record.startingLine));
      }
    }

    /** One record: its kind and then its fields, in the protocol's order. */
    method WriteEntry(e: Entry, ghost tail: Row) returns (r: Result<(), Fault>)
      requires temporary.Valid() && todo == EntryRow(e, tail) && Typed(e)
      modifies this, temporary
      ensures Wrote(r, tail)
    {
      hide Encode, Utf8.IsUtf8, KeyRow, PlacementRow, SourceRow, TypedKey, TypedUnit, TypedSource;
      match e {
        case Placement(k, p, s) =>
          var _ :- WriteField(U32(PLACEMENT_RECORD));
          var _ :- WriteKey(k, PlacementRow(p, SourceRow(s, tail)));
          var _ :- WriteUnit(p, SourceRow(s, tail));
          r := WriteSource(s, tail);
        case SourceFile(id, length) =>
          var _ :- WriteField(U32(SOURCE_FILE_RECORD));
          var _ :- WriteField(U64(id));
          r := WriteField(U64(length));
        case Module(name, path) =>
          var _ :- WriteField(U32(MODULE_RECORD));
          var _ :- WriteString(name);
          r := WritePath(path);
      }
    }

    method WriteConfiguration(c: Configuration, ghost tail: Row) returns (r: Result<(), Fault>)
      requires temporary.Valid() && todo == ConfigurationRow(c, tail) && TypedConfiguration(c)
      modifies this, temporary
      ensures Wrote(r, tail)
    {
      hide Encode, EncodeRow, RepresentableRow, Utf8.IsUtf8, LtoCode, SupportCode;
      var _ :- WriteField(U32(CONFIGURATION_RECORD));
      var _ :- WriteString(c.backend);
      var _ :- WriteString(c.target);
      var _ :- WriteString(c.optimization);
      r := WriteCodes(c, tail);
    }

    /** The configuration's numbers and flags. */
    method WriteCodes(c: Configuration, ghost tail: Row) returns (r: Result<(), Fault>)
      requires temporary.Valid() && todo == CodesRow(c, tail) && c.codegenUnits <= U32_MAX
      modifies this, temporary
      ensures Wrote(r, tail)
    {
      hide Encode, EncodeRow, RepresentableRow, LtoCode, SupportCode;
      CodesAreSmall(c);
      var _ :- WriteField(U32(LtoCode(c.lto)));
      var _ :- WriteField(Flag(c.incremental));
      var _ :- WriteField(Flag(c.linkerPlugin));
      var _ :- WriteField(U32(c.codegenUnits));
      var _ :- WriteField(U32(LLVM_RECIPE_REVISION));
      r := WriteField(U32(SupportCode(c.unsupported)));
    }

    method WriteHeader(marker: Name, ghost tail: Row) returns (r: Result<(), Fault>)
      requires temporary.Valid() && todo == HeaderRow(marker, tail) && Utf8.IsUtf8(marker)
      modifies this, temporary
      ensures Wrote(r, tail)
    {
      hide Encode, EncodeRow, RepresentableRow, Utf8.IsUtf8;
      var _ :- WriteField(Raw(MAGIC));
      var _ :- WriteField(U32(PROTOCOL_VERSION));
      r := WriteString(marker);
    }

    /**
     Writes the end record, flushes it, and then renames the file to its visible name. Only all
     three make the promised text visible, and then the whole of it.
     */
    method Finish(renames: bool) returns (r: Result<(), Fault>)
      requires temporary.Valid() && todo == Then(U32(END_RECORD), End) && published == None
      modifies this, temporary
      ensures temporary.Valid() && RecordIo.IsPrefix(temporary.Accepted(), old(Promised()))
      ensures RepresentableRow(old(todo))
      ensures r.Ok? <==> |old(Promised())| <= temporary.capacity && renames
      ensures published == if r.Ok? then Some(old(Promised())) else None
    {
      hide Encode;
      var _ :- WriteField(U32(END_RECORD));
      assert temporary.Accepted() + [] == temporary.Accepted();
      var flushed := temporary.Flush();
      if flushed.Err? || !renames {
        return Err(WriteFailed);
      }
      assert temporary.Accepted() == temporary.file;
      published := Some(temporary.file);
      r := Ok(());
    }
  }

  /** What the file system does to one manifest: how much its file takes, and which calls fail. */
  datatype Disk = Disk(creates: bool, capacity: nat, renames: bool)

  /**
   Writes one whole manifest. It becomes visible exactly when the file can be created, every string
   can be encoded, the file takes the whole stream, and the rename succeeds; it is then the encoding
   of these records in this order. Otherwise nothing is visible, and the temporary file holds no
   more than a prefix of that encoding.
   */
  method WriteManifest(marker: Name, c: Configuration, entries: seq<Entry>, disk: Disk)
    returns (published: Option<seq<byte>>, temporary: seq<byte>)
    requires Utf8.IsUtf8(marker) && TypedConfiguration(c) && forall e :: e in entries ==> Typed(e)
    ensures published.Some? ==> published.value == Codec.Stream(marker, c, entries)
    ensures published.Some? <==>
              && disk.creates && disk.renames
              && Codec.Encodable(marker, c, entries) && |Codec.Stream(marker, c, entries)| <= disk.capacity
    ensures RecordIo.IsPrefix(temporary, Codec.Stream(marker, c, entries))
  {
    hide Encode, Utf8.IsUtf8, Typed, TypedConfiguration, HeaderRow, ConfigurationRow, EntryRow;
    ghost var row := StreamRow(marker, c, entries);
    if !disk.creates {
      return None, [];
    }
    var file := new RecordIo.BufferedFile(disk.capacity);
    var writer := new ManifestWriter(row, file);
    assert writer.Promised() == EncodeRow(row);
    var ok := WriteRecords(writer, marker, c, entries);
    if ok.Ok? {
      ok := writer.Finish(disk.renames);
    }
    RecordIo.PrefixExtends(file.file, file.pending);
    RecordIo.PrefixTransitive(file.file, file.Accepted(), EncodeRow(row));
    published, temporary := writer.published, file.file;
  }

  /** Everything before the end record. */
  method WriteRecords(writer: ManifestWriter, marker: Name, c: Configuration, entries: seq<Entry>)
    returns (r: Result<(), Fault>)
    requires writer.temporary.Valid() && writer.todo == StreamRow(marker, c, entries)
    requires Utf8.IsUtf8(marker) && TypedConfiguration(c) && forall e :: e in entries ==> Typed(e)
    modifies writer, writer.temporary
    ensures writer.Wrote(r, Then(U32(END_RECORD), End))
  {
    hide Encode, Utf8.IsUtf8, Typed, TypedConfiguration, HeaderRow, ConfigurationRow, EntryRow;
    var _ :- writer.WriteHeader(marker, ConfigurationRow(c, EntriesRow(entries, 0)));
    var _ :- writer.WriteConfiguration(c, EntriesRow(entries, 0));
    for k := 0 to |entries|
      invariant writer.Wrote(Ok(()), EntriesRow(entries, k))
    {
      var _ :- writer.WriteEntry(entries[k], EntriesRow(entries, k + 1));
    }
    r := Ok(());
  }
}
