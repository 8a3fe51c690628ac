/**
 What one analyzed compilation makes, from the driver to the evidence that is read back: the records
 that the driver writes, the files and tools that belong to them, and the manifest stream between.
 */
module Drivers {
  import opened Base
  import opened Records
  import Assembly
  import Captures
  import Codec
  import Decoder
  import Paths
  import Protocol
  import Utf8
  import Writer

  /** The driver's records in the order that it writes them, and what collection then finds beside them. */
  datatype Product = Product(
    directory: Paths.Path,
    configuration: Protocol.Configuration,
    entries: seq<Protocol.Entry>,
    tools: Assembly.Tools,
    files: Assembly.Files)

  /** What compiling a request on given inputs makes. */
  type Driver = (Name, Captures.Inputs) -> Product

  /** The driver's text is UTF-8 and its integers have their width, because of their types. */
  ghost predicate Typed(driver: Driver) {
    forall key, inputs :: TypedProduct(driver(key, inputs))
  }

  ghost predicate TypedProduct(p: Product) {
    Writer.TypedConfiguration(p.configuration) && forall e :: e in p.entries ==> Writer.Typed(e)
  }

  /** The product's whole stream, under a marker. */
  ghost predicate IsStreamOf(bytes: seq<byte>, marker: Name, p: Product) {
    Codec.Encodable(marker, p.configuration, p.entries) && bytes == Codec.Stream(marker, p.configuration, p.entries)
  }

  ghost predicate Makes(p: Product, e: Assembly.CollectedEvidence) {
    Assembly.IsEvidenceOf(e, p.configuration, p.entries, p.tools, p.files)
  }

  /** A reader accepts the product's records, and the tools and files supply what they need. */
  ghost predicate Readable(p: Product) {
    && Codec.AllAdmissible(p.entries, 0)
    && Assembly.AllAcceptable(p.configuration, p.directory, p.entries)
    && Assembly.RecordsSupplied(p.configuration, p.entries, p.tools, p.files)
  }

  /** The product's evidence, if it has any. */
  ghost function EvidenceOf(p: Product): Assembly.CollectedEvidence {
    if e :| Makes(p, e) then e
    else
      Assembly.CollectedEvidence([], [], Assembly.ProvenanceOf(p.configuration, p.tools), NotCaptured(OtherBackend))
  }

  /** The evidence that compiling yields, as a manifest without a capture. */
  ghost function CompilerOf(driver: Driver): Captures.Compiler {
    (key, inputs) => Assembly.ManifestWith(EvidenceOf(driver(key, inputs)), [])
  }

  /** A product makes one evidence only, and that is what its compilation yields. */
  lemma MakesOnce(driver: Driver, key: Name, inputs: Captures.Inputs, e: Assembly.CollectedEvidence, id: Name)
    requires Makes(driver(key, inputs), e)
    ensures e == EvidenceOf(driver(key, inputs))
    ensures Assembly.ManifestWith(e, id) == Captures.WithId(CompilerOf(driver)(key, inputs), id)
  {
    hide Assembly.IsEvidenceOf;
    var p := driver(key, inputs);
    Assembly.EvidenceIsDetermined(e, EvidenceOf(p), p.configuration, p.entries, p.tools, p.files);
  }

  /** The product's stream exists, and the file system takes all of it and makes it visible. */
  ghost predicate BecomesVisible(p: Product, marker: Name, disk: Writer.Disk) {
    && Codec.Encodable(marker, p.configuration, p.entries)
    && disk.creates && |Codec.Stream(marker, p.configuration, p.entries)| <= disk.capacity && disk.renames
  }

  /** Writes a product's manifest: its whole stream becomes visible, or nothing. */
  method Write(p: Product, marker: Name, disk: Writer.Disk) returns (manifest: Option<seq<byte>>)
    requires TypedProduct(p) && Utf8.IsUtf8(marker)
    ensures manifest.Some? <==> BecomesVisible(p, marker, disk)
    ensures manifest.Some? ==> IsStreamOf(manifest.value, marker, p)
  {
    var published, temporary := Writer.WriteManifest(marker, p.configuration, p.entries, disk);
    manifest := published;
  }

  /** Reads a written manifest back, exactly if it is readable, as the evidence that its product makes. */
  method Read(bytes: seq<byte>, marker: Name, p: Product)
    returns (r: Result<Assembly.CollectedEvidence, Assembly.Failure>)
    requires IsStreamOf(bytes, marker, p)
    ensures r.Ok? <==> Readable(p)
    ensures r.Ok? ==> Makes(p, r.value)
  {
    hide Codec.Encodable, Codec.Stream, Codec.ReadStream, Codec.AllAdmissible, Assembly.Decodable,
      Assembly.AllAcceptable, Assembly.RecordsSupplied, Assembly.IsEvidenceOf, Assembly.RecordsJoin,
      Assembly.ValidEvidence, Assembly.ConfigurationIn, Assembly.EntriesIn;
    Assembly.WrittenIsRead(marker, p.directory, p.configuration, p.entries);
    r := Assembly.ReadEvidence(bytes, marker, p.directory, p.tools, p.files);
  }
}
