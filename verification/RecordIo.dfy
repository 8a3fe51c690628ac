/** Durable records with a byte budget that writers and readers share. */
module RecordIo {
  import opened Base

  const BUFFER_BYTES: nat := 8 * 1024
  const NEWLINE: byte := '\n' as byte

  datatype Failure = TooLarge(actual: nat) | Io

  predicate IsPrefix(a: seq<byte>, b: seq<byte>) {
    a <= b
  }

  lemma PrefixTransitive(a: seq<byte>, b: seq<byte>, c: seq<byte>)
    requires IsPrefix(a, b) && IsPrefix(b, c)
    ensures IsPrefix(a, c) && |a| <= |c|
  {
  }

  lemma PrefixExtends(a: seq<byte>, more: seq<byte>)
    ensures IsPrefix(a, a + more)
  {
  }

  /**
   A new file behind a write buffer. The file takes `capacity` bytes in all and then fails. Each of
   its writes may be short, in any pattern.
   */
  class BufferedFile {
    const capacity: nat
    var file: seq<byte>
    var pending: seq<byte>

    constructor (capacity: nat)
      ensures this.capacity == capacity && file == [] && pending == []
    {
      this.capacity, this.file, this.pending := capacity, [], [];
    }

    ghost predicate Valid()
      reads this
    {
      |file| <= capacity
    }

    /** Every byte that the buffer has accepted. */
    function Accepted(): seq<byte>
      reads this
    {
      file + pending
    }

    /** One write to the file: some of the bytes, unless the file is full. */
    method WriteFile(bytes: seq<byte>) returns (r: Result<nat, Failure>)
      requires Valid() && bytes != []
      modifies this
      ensures Valid() && pending == old(pending)
      ensures r.Ok? ==> 0 < r.value <= |bytes| && file == old(file) + bytes[..r.value]
      ensures r.Err? ==> r.error.Io? && file == old(file) && |file| == capacity
    {
      if |file| == capacity {
        return Err(Io);
      }
      var n: nat :| 0 < n <= |bytes| && |file| + n <= capacity;
      file := file + bytes[..n];
      r := Ok(n);
    }

    /** Moves the buffer to the file. */
    method Flush() returns (r: Result<(), Failure>)
      requires Valid()
      modifies this
      ensures Valid() && Accepted() == old(Accepted())
      ensures r.Ok? ==> pending == []
      ensures r.Err? ==> r.error.Io? && |Accepted()| > capacity
    {
      while pending != []
        invariant Valid() && Accepted() == old(Accepted())
        decreases |pending|
      {
        label before:
        var written :- WriteFile(pending);
        assert pending == pending[..written] + pending[written..];
        pending := pending[written..];
        assert Accepted() == old@before(Accepted());
      }
      r := Ok(());
    }

    /** Accepts some of the bytes: all of them when they fit into the buffer. */
    method Write(bytes: seq<byte>) returns (r: Result<nat, Failure>)
      requires Valid() && bytes != []
      modifies this
      ensures Valid()
      ensures r.Ok? ==> 0 < r.value <= |bytes| && Accepted() == old(Accepted()) + bytes[..r.value]
      ensures r.Err? ==> r.error.Io? && Accepted() == old(Accepted()) && |Accepted()| + |bytes| > capacity
    {
      if |pending| + |bytes| > BUFFER_BYTES {
        var _ :- Flush();
      }
      if |bytes| >= BUFFER_BYTES {
        r := WriteFile(bytes);
        return;
      }
      pending := pending + bytes;
      r := Ok(|bytes|);
    }

    /** Repeats short writes until every byte is accepted or one write fails. */
    method WriteAll(bytes: seq<byte>) returns (r: Result<(), Failure>, ghost accepted: nat)
      requires Valid()
      modifies this
      ensures Valid() && accepted <= |bytes|
      ensures Accepted() == old(Accepted()) + bytes[..accepted]
      ensures r.Ok? ==> accepted == |bytes|
      ensures r.Err? ==> r.error.Io? && old(|Accepted()|) + |bytes| > capacity
    {
      accepted := 0;
      var rest := bytes;
      while rest != []
        invariant Valid() && accepted <= |bytes| && rest == bytes[accepted..]
        invariant Accepted() == old(Accepted()) + bytes[..accepted]
        decreases |rest|
      {
        var step := Write(rest);
        if step.Err? {
          return Err(step.error), accepted;
        }
        var written := step.value;
        assert bytes[..accepted] + rest[..written] == bytes[..accepted + written];
        accepted := accepted + written;
        rest := rest[written..];
      }
      r := Ok(());
    }
  }

  /** Stops a serializer before it writes more than the budget. */
  class BoundedWriter {
    const inner: BufferedFile
    var remaining: nat
    var exceeded: bool

    constructor (inner: BufferedFile, limit: nat)
      ensures this.inner == inner && remaining == limit && !exceeded
    {
      this.inner, this.remaining, this.exceeded := inner, limit, false;
    }

    /** Refuses bytes beyond the budget before the file sees any of them. */
    method Write(bytes: seq<byte>) returns (r: Result<nat, Failure>)
      requires inner.Valid() && bytes != [] && !exceeded
      modifies this, inner
      ensures inner.Valid()
      ensures exceeded <==> |bytes| > old(remaining)
      ensures exceeded ==> r.Err?
      ensures r.Ok? ==>
                && 0 < r.value <= |bytes| && remaining + r.value == old(remaining)
                && inner.Accepted() == old(inner.Accepted()) + bytes[..r.value]
      ensures r.Err? ==> remaining == old(remaining) && inner.Accepted() == old(inner.Accepted())
      ensures r.Err? && !exceeded ==> r.error.Io? && |inner.Accepted()| + |bytes| > inner.capacity
    {
      if |bytes| > remaining {
        exceeded := true;
        return Err(Io);
      }
      var written :- inner.Write(bytes);
      remaining := remaining - written;
      r := Ok(written);
    }

    /** Repeats short writes until every byte is accepted or one write fails. */
    method WriteAll(bytes: seq<byte>) returns (r: Result<(), Failure>, ghost accepted: nat)
      requires inner.Valid() && !exceeded
      modifies this, inner
      ensures inner.Valid() && accepted <= |bytes|
      ensures inner.Accepted() == old(inner.Accepted()) + bytes[..accepted]
      ensures remaining + accepted == old(remaining)
      ensures exceeded <==> |bytes| > old(remaining)
      ensures exceeded ==> r.Err? && accepted == 0
      ensures r.Ok? ==> accepted == |bytes|
      ensures r.Err? && !exceeded ==> r.error.Io? && old(|inner.Accepted()|) + |bytes| > inner.capacity
    {
      accepted := 0;
      var rest := bytes;
      while rest != []
        invariant inner.Valid() && !exceeded && accepted <= |bytes| && rest == bytes[accepted..]
        invariant inner.Accepted() == old(inner.Accepted()) + bytes[..accepted]
        invariant remaining + accepted == old(remaining)
        invariant accepted > 0 ==> |bytes| <= old(remaining)
        decreases |rest|
      {
        var step := Write(rest);
        if step.Err? {
          return Err(step.error), accepted;
        }
        var written := step.value;
        assert bytes[..accepted] + rest[..written] == bytes[..accepted + written];
        accepted := accepted + written;
        rest := rest[written..];
      }
      r := Ok(());
    }
  }

  /** What a serializer emits, whatever the pieces it emits. */
  function Concat(chunks: seq<seq<byte>>, n: nat): (r: seq<byte>)
    requires n <= |chunks|
  {
    if n == 0 then [] else Concat(chunks, n - 1) + chunks[n - 1]
  }

  lemma {:induction false} ConcatGrows(chunks: seq<seq<byte>>, i: nat, n: nat)
    requires i <= n <= |chunks|
    ensures IsPrefix(Concat(chunks, i), Concat(chunks, n))
    decreases n - i
  {
    if i < n {
      ConcatGrows(chunks, i, n - 1);
    }
  }

  function Encoded(chunks: seq<seq<byte>>): seq<byte> {
    Concat(chunks, |chunks|)
  }

  /** The file's content for a record: its encoding and a final newline. */
  function Line(chunks: seq<seq<byte>>): seq<byte> {
    Encoded(chunks) + [NEWLINE]
  }

  /** Serializes piece by piece and stops at the first failure. */
  method Serialize(writer: BoundedWriter, chunks: seq<seq<byte>>) returns (r: Result<(), Failure>)
    requires writer.inner.Valid() && !writer.exceeded && writer.inner.Accepted() == []
    modifies writer, writer.inner
    ensures writer.inner.Valid() && IsPrefix(writer.inner.Accepted(), Encoded(chunks))
    ensures writer.remaining + |writer.inner.Accepted()| == old(writer.remaining)
    ensures r.Ok? ==> !writer.exceeded && writer.inner.Accepted() == Encoded(chunks)
    ensures r.Err? ==> if writer.exceeded then |Encoded(chunks)| > old(writer.remaining)
                       else r.error.Io? && |Encoded(chunks)| > writer.inner.capacity
  {
    for i := 0 to |chunks|
      invariant writer.inner.Valid() && !writer.exceeded
      invariant writer.inner.Accepted() == Concat(chunks, i)
      invariant writer.remaining + |Concat(chunks, i)| == old(writer.remaining)
    {
      ghost var accepted;
      r, accepted := writer.WriteAll(chunks[i]);
      ConcatGrows(chunks, i + 1, |chunks|);
      if r.Err? {
        assert IsPrefix(writer.inner.Accepted(), Concat(chunks, i + 1));
        PrefixTransitive(writer.inner.Accepted(), Concat(chunks, i + 1), Encoded(chunks));
        return;
      }
    }
    r := Ok(());
  }

  /** The file and the pending bytes of a writer never leave the record's line or its budget. */
  ghost predicate Bounded(disk: BufferedFile, chunks: seq<seq<byte>>, limit: nat)
    reads disk
  {
    disk.Valid() && IsPrefix(disk.file, Line(chunks)) && |disk.file| <= limit
  }

  lemma AcceptedBounds(disk: BufferedFile, chunks: seq<seq<byte>>, limit: nat)
    requires disk.Valid() && IsPrefix(disk.Accepted(), Line(chunks)) && |disk.Accepted()| <= limit
    ensures Bounded(disk, chunks, limit)
  {
    PrefixExtends(disk.file, disk.pending);
    PrefixTransitive(disk.file, disk.Accepted(), Line(chunks));
  }

  /**
   Writes a record exactly when its line fits the budget and the file. Whatever happens, the file
   holds a prefix of the line and no more bytes than the budget, also after the buffer has been
   written out as its owner drops it.
   */
  method WriteRecord(disk: BufferedFile, chunks: seq<seq<byte>>, limit: nat) returns (r: Result<(), Failure>)
    requires limit < U64_MAX && disk.file == [] && disk.pending == []
    modifies disk
    ensures Bounded(disk, chunks, limit)
    ensures IsPrefix(disk.Accepted(), Line(chunks)) && |disk.Accepted()| <= limit
    ensures r.Ok? <==> |Line(chunks)| <= limit && |Line(chunks)| <= disk.capacity
    ensures r.Ok? ==> disk.file == Line(chunks)
    ensures r.Err? && r.error.TooLarge? ==> |Line(chunks)| > limit && r.error.actual == limit + 1
    ensures r.Err? && r.error.Io? ==> |Line(chunks)| > disk.capacity
  {
    var writer := new BoundedWriter(disk, limit);
    var encoded := Serialize(writer, chunks);
    PrefixExtends(Encoded(chunks), [NEWLINE]);
    PrefixTransitive(disk.Accepted(), Encoded(chunks), Line(chunks));
    AcceptedBounds(disk, chunks, limit);
    if writer.exceeded {
      return Err(TooLarge(limit + 1));
    }
    var _ :- encoded;
    if writer.remaining == 0 {
      return Err(TooLarge(limit + 1));
    }
    ghost var accepted;
    r, accepted := writer.WriteAll([NEWLINE]);
    assert [NEWLINE][..0] == [] && [NEWLINE][..1] == [NEWLINE];
    AcceptedBounds(disk, chunks, limit);
    if r.Ok? {
      r := disk.Flush();
      assert disk.Accepted() == Line(chunks);
      AcceptedBounds(disk, chunks, limit);
    }
  }

  /** Reads at most one byte beyond the budget, in pieces of any size. */
  method ReadBounded(content: seq<byte>, limit: nat) returns (r: Result<seq<byte>, Failure>)
    requires limit < U64_MAX
    ensures r.Ok? <==> |content| <= limit
    ensures r.Ok? ==> r.value == content
    ensures r.Err? ==> r.error == TooLarge(limit + 1)
  {
    var bytes: seq<byte> := [];
    var most := Min(limit + 1, |content|);
    while |bytes| < most
      invariant |bytes| <= most && bytes == content[..|bytes|]
    {
      var n: nat :| 0 < n <= most - |bytes|;
      bytes := bytes + content[|bytes|..|bytes| + n];
    }
    if |bytes| > limit {
      return Err(TooLarge(|bytes|));
    }
    r := Ok(bytes);
  }

  /** Checks a file's length before reading it; the file may have grown since. */
  method ReadRecord(observed: nat, content: seq<byte>, limit: nat) returns (r: Result<seq<byte>, Failure>)
    requires limit < U64_MAX
    ensures r.Ok? <==> observed <= limit && |content| <= limit
    ensures r.Ok? ==> r.value == content
  {
    if observed > limit {
      return Err(TooLarge(observed));
    }
    r := ReadBounded(content, limit);
  }

  /** Every record that a writer completes is read back, under the same budget. */
  method WriteThenRead(chunks: seq<seq<byte>>, capacity: nat, limit: nat) returns (r: Result<seq<byte>, Failure>)
    requires limit < U64_MAX
    ensures r.Ok? <==> |Line(chunks)| <= limit && |Line(chunks)| <= capacity
    ensures r.Ok? ==> r.value == Line(chunks)
  {
    var disk := new BufferedFile(capacity);
    var _ :- WriteRecord(disk, chunks, limit);
    r := ReadRecord(|disk.file|, disk.file, limit);
  }
}
