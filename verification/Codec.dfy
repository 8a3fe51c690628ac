/** Whole manifest streams: which byte strings are accepted, and what they decode to. */
module Codec {
  import opened Base
  import opened Wire
  import opened Protocol
  import Records

  lemma EntryAdvances(bytes: seq<byte>, i: nat)
    ensures ReadEntry(bytes, i).Ok? ==> i < ReadEntry(bytes, i).value.next && i < |bytes|
  {
    hide ReadString, ReadBool, ReadU64;
  }

  /** The entries up to the end record. */
  function ReadEntries(bytes: seq<byte>, i: nat): Read<seq<Entry>>
    decreases |bytes| - i
  {
    var e :- ReadEntry(bytes, i);
    if e.value.None? then Ok(Got([], e.next))
    else
      EntryAdvances(bytes, i);
      var rest :- ReadEntries(bytes, e.next);
      Ok(Got([e.value.value] + rest.value, rest.next))
  }

  /** The configuration and entries of a complete stream, with nothing after its end record. */
  function ReadStream(bytes: seq<byte>, marker: Name): Result<(Configuration, seq<Entry>), Failure> {
    var header :- ReadHeader(bytes, 0, marker);
    var configuration :- ReadConfiguration(bytes, header.next);
    var entries :- ReadEntries(bytes, configuration.next);
    if entries.next != |bytes| then Err(TrailingBytes) else Ok((configuration.value, entries.value))
  }

  ghost predicate AllAdmissible(entries: seq<Entry>, k: nat) {
    forall n :: k <= n < |entries| ==> Admissible(entries[n])
  }

  lemma EndIsRead(bytes: seq<byte>, i: nat, j: nat)
    ensures Reads(bytes, i, Then(U32(END_RECORD), End), j) <==> Yields(bytes, ReadEntry(bytes, i), None, End, j)
  {
    hide ReadU32, ReadInstancePlacement, ReadSourceFile, ReadModule;
  }

  lemma {:induction false} EntriesAreRead(bytes: seq<byte>, i: nat, entries: seq<Entry>, k: nat, j: nat)
    requires k <= |entries|
    ensures Reads(bytes, i, EntriesRow(entries, k), j) && AllAdmissible(entries, k)
       <==> Yields(bytes, ReadEntries(bytes, i), entries[k..], End, j)
    decreases |entries| - k
  {
    hide ReadEntry, EntryRow, Admissible;
    EntryAdvances(bytes, i);
    if k == |entries| {
      EndIsRead(bytes, i, j);
    } else {
      EntryIsRead(bytes, i, entries[k], EntriesRow(entries, k + 1), j);
      assert entries[k..] == [entries[k]] + entries[k + 1..];
      if ReadEntry(bytes, i).Ok? && ReadEntry(bytes, i).value.value.Some? {
        var next := ReadEntry(bytes, i).value.next;
        EntriesAreRead(bytes, next, entries, k + 1, j);
        if ReadEntries(bytes, next).Ok?
          && [ReadEntry(bytes, i).value.value.value] + ReadEntries(bytes, next).value.value == entries[k..] {
          assert entries[k..][0] == entries[k] && entries[k..][1..] == entries[k + 1..];
        }
      }
    }
  }

  lemma StreamIsRead(bytes: seq<byte>, marker: Name, c: Configuration, entries: seq<Entry>)
    ensures ReadStream(bytes, marker) == Ok((c, entries)) <==>
              Reads(bytes, 0, StreamRow(marker, c, entries), |bytes|) && AllAdmissible(entries, 0)
  {
    hide ReadHeader, ReadConfiguration, ReadEntries, HeaderRow, ConfigurationRow, EntriesRow, AllAdmissible, Reads;
    HeaderIsRead(bytes, 0, marker, ConfigurationRow(c, EntriesRow(entries, 0)), |bytes|);
    if ReadHeader(bytes, 0, marker).Ok? {
      var i := ReadHeader(bytes, 0, marker).value.next;
      assert ReadHeader(bytes, 0, marker).value.value == ();
      ConfigurationIsRead(bytes, i, c, EntriesRow(entries, 0), |bytes|);
      if ReadConfiguration(bytes, i).Ok? {
        var k := ReadConfiguration(bytes, i).value.next;
        EntriesAreRead(bytes, k, entries, 0, |bytes|);
        EndsAt(bytes, ReadEntries(bytes, k), entries, |bytes|);
        assert entries[0..] == entries;
      }
    }
  }

  /** The stream of a configuration and its entries. */
  function Stream(marker: Name, c: Configuration, entries: seq<Entry>): seq<byte> {
    EncodeRow(StreamRow(marker, c, entries))
  }

  ghost predicate Encodable(marker: Name, c: Configuration, entries: seq<Entry>) {
    RepresentableRow(StreamRow(marker, c, entries))
  }

  /**
   A byte string is accepted exactly when it is the encoding of what it decodes to. So decoding
   inverts encoding for every record sequence, and every accepted stream has one form.
   */
  lemma AcceptedStreams(bytes: seq<byte>, marker: Name, c: Configuration, entries: seq<Entry>)
    ensures ReadStream(bytes, marker) == Ok((c, entries)) <==>
              bytes == Stream(marker, c, entries) && Encodable(marker, c, entries) && AllAdmissible(entries, 0)
  {
    hide ReadStream, StreamRow, AllAdmissible;
    StreamIsRead(bytes, marker, c, entries);
    RowIffOccurs(bytes, 0, StreamRow(marker, c, entries), |bytes|);
    var text := Stream(marker, c, entries);
    if |bytes| == |text| {
      assert Occurs(bytes, 0, text) <==> bytes == text by {
        if Occurs(bytes, 0, text) {
          assert forall k :: 0 <= k < |text| ==> bytes[0 + k] == text[k];
        }
      }
    }
  }

  /** No accepted stream continues another: strict prefixes and extensions are rejected. */
  lemma AcceptedStreamsArePrefixFree(a: seq<byte>, b: seq<byte>, m: Name, n: Name)
    requires a <= b && ReadStream(a, m).Ok? && ReadStream(b, n).Ok?
    ensures a == b && m == n
  {
    var (c, es) := ReadStream(a, m).value;
    StreamIsRead(a, m, c, es);
    ReadsInExtension(a, b, StreamRow(m, c, es));
    hide Reads, ReadConfiguration, ReadEntries, HeaderRow, ConfigurationRow, EntriesRow, AllAdmissible;
    HeaderIsRead(b, 0, m, ConfigurationRow(c, EntriesRow(es, 0)), |a|);
    var i := ReadHeader(b, 0, m).value.next;
    ConfigurationIsRead(b, i, c, EntriesRow(es, 0), |a|);
    var j := ReadConfiguration(b, i).value.next;
    EntriesAreRead(b, j, es, 0, |a|);
    EndsAt(b, ReadEntries(b, j), es[0..], |a|);
  }

  lemma EndsAt(bytes: seq<byte>, r: Read<seq<Entry>>, entries: seq<Entry>, j: nat)
    ensures Yields(bytes, r, entries, End, j) <==> r == Ok(Got(entries, j))
  {
  }

  // ---- One stream for each content ----

  lemma KeyAlike(k: Key, other: Key, tail: Row, more: Row)
    requires Alike(tail, more)
    ensures Alike(KeyRow(k, tail), KeyRow(other, more))
  {
    var row, also := KeyRow(k, tail), KeyRow(other, more);
    assert Alike(row.rest.rest.rest, also.rest.rest.rest);
    assert Alike(row.rest.rest, also.rest.rest);
    assert Alike(row.rest, also.rest);
  }

  lemma PlacementAlike(p: Records.PlacementRecord, other: Records.PlacementRecord, tail: Row, more: Row)
    requires Alike(tail, more)
    ensures Alike(PlacementRow(p, tail), PlacementRow(other, more))
  {
    var row, also := PlacementRow(p, tail), PlacementRow(other, more);
    assert Alike(row.rest.rest.rest.rest, also.rest.rest.rest.rest);
    assert Alike(row.rest.rest.rest, also.rest.rest.rest);
    assert Alike(row.rest.rest, also.rest.rest);
    assert Alike(row.rest, also.rest);
  }

  lemma SourceAlike(s: Records.SourceAvailability, other: Records.SourceAvailability, tail: Row, more: Row)
    requires Alike(tail, more)
    ensures Alike(SourceRow(s, tail), SourceRow(other, more))
  {
    var row, also := SourceRow(s, tail), SourceRow(other, more);
    if s.Available? && other.Available? {
      assert Alike(row.rest.rest.rest.rest.rest, also.rest.rest.rest.rest.rest);
      assert Alike(row.rest.rest.rest.rest, also.rest.rest.rest.rest);
      assert Alike(row.rest.rest.rest, also.rest.rest.rest);
      assert Alike(row.rest.rest, also.rest.rest);
      assert Alike(row.rest, also.rest);
    }
  }

  lemma EntryAlike(e: Entry, other: Entry, tail: Row, more: Row)
    requires Alike(tail, more)
    ensures Alike(EntryRow(e, tail), EntryRow(other, more))
  {
    hide KeyRow, PlacementRow, SourceRow;
    if e.Placement? && other.Placement? {
      SourceAlike(e.source, other.source, tail, more);
      var rest, later := SourceRow(e.source, tail), SourceRow(other.source, more);
      PlacementAlike(e.placement, other.placement, rest, later);
      KeyAlike(e.key, other.key, PlacementRow(e.placement, rest), PlacementRow(other.placement, later));
    } else if (e.SourceFile? && other.SourceFile?) || (e.Module? && other.Module?) {
      var row, also := EntryRow(e, tail), EntryRow(other, more);
      assert Alike(row.rest.rest, also.rest.rest);
    }
  }

  lemma {:induction false} EntriesAlike(es: seq<Entry>, k: nat, fs: seq<Entry>, l: nat)
    requires k <= |es| && l <= |fs|
    ensures Alike(EntriesRow(es, k), EntriesRow(fs, l))
    decreases |es| - k
  {
    hide EntryRow;
    if k < |es| && l < |fs| {
      EntriesAlike(es, k + 1, fs, l + 1);
      EntryAlike(es[k], fs[l], EntriesRow(es, k + 1), EntriesRow(fs, l + 1));
    } else if k < |es| {
      EntryIsNoEnd(es[k], EntriesRow(es, k + 1));
    } else if l < |fs| {
      EntryIsNoEnd(fs[l], EntriesRow(fs, l + 1));
    }
  }

  /** A record starts with its kind, which is not that of the end. */
  lemma EntryIsNoEnd(e: Entry, tail: Row)
    ensures EntryRow(e, tail).Then? && EntryRow(e, tail).field.U32? && EntryRow(e, tail).field != U32(END_RECORD)
  {
  }

  lemma SameEntry(e: Entry, other: Entry, tail: Row, more: Row)
    requires EntryRow(e, tail) == EntryRow(other, more)
    ensures e == other && tail == more
  {
  }

  lemma {:induction false} SameEntries(es: seq<Entry>, k: nat, fs: seq<Entry>, l: nat)
    requires k <= |es| && l <= |fs| && EntriesRow(es, k) == EntriesRow(fs, l)
    ensures es[k..] == fs[l..]
    decreases |es| - k
  {
    hide EntryRow;
    if k < |es| && l < |fs| {
      SameEntry(es[k], fs[l], EntriesRow(es, k + 1), EntriesRow(fs, l + 1));
      SameEntries(es, k + 1, fs, l + 1);
      assert es[k..] == [es[k]] + es[k + 1..] && fs[l..] == [fs[l]] + fs[l + 1..];
    } else if k < |es| {
      EntryIsNoEnd(es[k], EntriesRow(es, k + 1));
    } else if l < |fs| {
      EntryIsNoEnd(fs[l], EntriesRow(fs, l + 1));
    }
  }

  lemma ConfigurationAlike(c: Configuration, other: Configuration, tail: Row, more: Row)
    requires Alike(tail, more)
    ensures Alike(ConfigurationRow(c, tail), ConfigurationRow(other, more))
  {
    var row, also := ConfigurationRow(c, tail), ConfigurationRow(other, more);
    assert Alike(row.rest.rest.rest.rest.rest.rest.rest.rest.rest, also.rest.rest.rest.rest.rest.rest.rest.rest.rest);
    assert Alike(row.rest.rest.rest.rest.rest.rest.rest.rest, also.rest.rest.rest.rest.rest.rest.rest.rest);
    assert Alike(row.rest.rest.rest.rest.rest.rest.rest, also.rest.rest.rest.rest.rest.rest.rest);
    assert Alike(row.rest.rest.rest.rest.rest.rest, also.rest.rest.rest.rest.rest.rest);
    assert Alike(row.rest.rest.rest.rest.rest, also.rest.rest.rest.rest.rest);
    assert Alike(row.rest.rest.rest.rest, also.rest.rest.rest.rest);
    assert Alike(row.rest.rest.rest, also.rest.rest.rest);
    assert Alike(row.rest.rest, also.rest.rest);
    assert Alike(row.rest, also.rest);
  }

  lemma SameConfiguration(c: Configuration, other: Configuration, tail: Row, more: Row)
    requires ConfigurationRow(c, tail) == ConfigurationRow(other, more)
    ensures c == other && tail == more
  {
  }

  /** Different contents have different streams, also where a reader accepts neither. */
  lemma OneStream(marker: Name, c: Configuration, es: seq<Entry>, other: Configuration, fs: seq<Entry>)
    requires Encodable(marker, c, es) && Encodable(marker, other, fs)
    requires Stream(marker, c, es) == Stream(marker, other, fs)
    ensures c == other && es == fs
  {
    hide EntriesRow, ConfigurationRow, Alike, Reads, RepresentableRow;
    var bytes, row, also := Stream(marker, c, es), StreamRow(marker, c, es), StreamRow(marker, other, fs);
    RowIffOccurs(bytes, 0, row, |bytes|);
    RowIffOccurs(bytes, 0, also, |bytes|);
    EntriesAlike(es, 0, fs, 0);
    ConfigurationAlike(c, other, EntriesRow(es, 0), EntriesRow(fs, 0));
    HeaderAlike(marker, ConfigurationRow(c, EntriesRow(es, 0)), ConfigurationRow(other, EntriesRow(fs, 0)));
    RowsAgree(bytes, 0, row, |bytes|, also, |bytes|);
    SameConfiguration(c, other, EntriesRow(es, 0), EntriesRow(fs, 0));
    SameEntries(es, 0, fs, 0);
    assert es[0..] == es && fs[0..] == fs;
  }

  lemma HeaderAlike(marker: Name, tail: Row, more: Row)
    requires Alike(tail, more)
    ensures Alike(HeaderRow(marker, tail), HeaderRow(marker, more))
  {
  }
}
