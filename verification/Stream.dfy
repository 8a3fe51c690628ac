/**
 The fixed-chunk input stream. Each method is proved equal to its function in Lexis on the complete
 input, so no answer depends on how the reader splits that input.
 */
module Streams {
  import opened Base
  import Lexis
  import opened L = Lexis

  const CHUNK_SIZE: nat := 8192

  datatype ReadResult = Read(count: nat) | Interrupted | Failed

  /**
   A reader that splits its input as it likes: each read delivers an arbitrary nonempty prefix of
   what is left, and finitely many reads are interrupted without delivering anything.
   */
  class Reader {
    var data: seq<byte>
    var interruptions: nat
    const ending: Ending

    constructor (data: seq<byte>, ending: Ending, interruptions: nat)
      ensures this.data == data && this.ending == ending && this.interruptions == interruptions
    {
      this.data, this.ending, this.interruptions := data, ending, interruptions;
    }

    method Fill(buffer: array<byte>) returns (r: ReadResult)
      requires buffer.Length > 0
      modifies this, buffer
      ensures match r
              case Interrupted => data == old(data) && interruptions < old(interruptions)
              case Failed => old(data) == [] && ending.Broken? && data == []
              case Read(n) =>
                && n <= buffer.Length && n <= |old(data)|
                && buffer[..n] == old(data)[..n]
                && data == old(data)[n..]
                && (n == 0 ==> old(data) == [] && ending.Eof?)
    {
      if interruptions > 0 {
        if * {
          interruptions := interruptions - 1;
          return Interrupted;
        }
      }
      if data == [] {
        return if ending.Eof? then Read(0) else Failed;
      }
      var n :| 1 <= n <= |data| && n <= buffer.Length;
      forall i | 0 <= i < n {
        buffer[i] := data[i];
      }
      assert buffer[..n] == data[..n];
      data := data[n..];
      r := Read(n);
    }
  }

  /** The value and the stopping cursor agree with a step of the specification. */
  ghost predicate Agrees<T>(r: Result<T, Error>, now: Cursor, step: Step<T>) {
    match step
    case Ok((value, next)) => r == Ok(value) && now == next
    case Err(error) => r == Err(error)
  }

  class Stream {
    const reader: Reader
    const chunk: array<byte>
    var position: nat
    var length: nat
    var offset: nat
    var headerStart: Option<nat>
    ghost const source: Source
    /** How much of the source the reader has handed over, consumed or still in the chunk. */
    ghost var delivered: nat
    /** The longest token buffer and the deepest group stack so far, rejected tokens included. */
    ghost var peakToken: nat
    ghost var peakGroup: nat

    ghost predicate Valid()
      reads this, reader, chunk
    {
      && chunk.Length == CHUNK_SIZE
      && position <= length <= chunk.Length
      && source.ending == reader.ending
      && Fits(source, At())
      && delivered == offset + length - position <= |source.bytes|
      && reader.data == source.bytes[delivered..]
      && peakToken <= HEADER_LIMIT && peakGroup <= HEADER_LIMIT
      && forall i {:trigger chunk[i]} :: position <= i < length ==> chunk[i] == source.bytes[offset - position + i]
    }

    function At(): Cursor
      reads this
    {
      Cursor(offset, headerStart)
    }

    /** A header's budget is active, and some of that header has been consumed. */
    ghost predicate InHeader()
      reads this
    {
      headerStart.Some? && headerStart.value < offset
    }

    constructor (reader: Reader)
      ensures Valid() && fresh(chunk) && this.reader == reader
      ensures source == Source(reader.data, reader.ending) && At() == Cursor(0, None)
    {
      this.reader := reader;
      chunk := new byte[CHUNK_SIZE];
      position, length, offset, headerStart := 0, 0, 0, None;
      source, delivered := Source(reader.data, reader.ending), 0;
      peakToken, peakGroup := 0, 0;
    }

    method BeginHeader(start: nat)
      requires Valid()
      requires start <= offset <= start + HEADER_LIMIT
      modifies this`headerStart
      ensures Valid() && At() == old(At()).(header := Some(start))
    {
      headerStart := Some(start);
    }

    method EndHeader()
      requires Valid()
      modifies this`headerStart
      ensures Valid() && At() == old(At()).(header := None)
    {
      headerStart := None;
    }

    method Peek() returns (r: Result<Option<byte>, Error>)
      requires Valid()
      modifies this, reader, chunk
      ensures Valid() && At() == old(At())
      ensures r == Lexis.Peek(source, At())
      ensures r.Ok? && r.value.Some? ==> position < length && chunk[position] == r.value.value
    {
      if position == length {
        var _ :- Refill();
      }
      if position < length {
        return Ok(Some(chunk[position]));
      }
      r := Ok(None);
    }

    /** Refills an exhausted chunk without consuming anything. */
    method Refill() returns (r: Result<(), Error>)
      requires Valid() && position == length
      modifies this`position, this`length, this`delivered, reader, chunk
      ensures Valid() && At() == old(At())
      ensures r.Err? ==> r == Err(ReaderFailed) && offset == |source.bytes| && source.ending.Broken?
      ensures r.Ok? ==> position < length || (offset == |source.bytes| && source.ending.Eof?)
    {
      while true
        invariant position == length == old(length) && Valid()
        invariant reader.data == source.bytes[offset..]
        decreases reader.interruptions
      {
        var result := reader.Fill(chunk);
        match result
        case Interrupted =>
        case Failed => return Err(ReaderFailed);
        case Read(n) =>
          position, length, delivered := 0, n, delivered + n;
          assert forall i :: 0 <= i < n ==> chunk[i] == chunk[..n][i];
          return Ok(());
      }
    }

    /** Consumes one byte within the header budget and the u64 offset. */
    method Take() returns (r: Result<Option<byte>, Error>)
      requires Valid()
      modifies this, reader, chunk
      ensures Valid()
      ensures Agrees(r, At(), Lexis.Take(source, old(At())))
    {
      var next :- Peek();
      if next.None? {
        return Ok(None);
      }
      if headerStart.Some? && offset - headerStart.value == HEADER_LIMIT {
        return Err(OverBudget(offset));
      }
      if offset == U64_MAX {
        return Err(OffsetOverflow(offset));
      }
      offset := offset + 1;
      position := position + 1;
      r := Ok(next);
    }

    method SkipLine() returns (r: Result<(), Error>)
      requires Valid()
      modifies this, reader, chunk
      ensures Valid()
      ensures Agrees(r, At(), Lexis.SkipLine(source, old(At())))
    {
      while true
        invariant Valid()
        invariant Lexis.SkipLine(source, old(At())) == Lexis.SkipLine(source, At())
        decreases |source.bytes| - offset
      {
        var next :- Take();
        if next == None || next == Some('\n' as byte) {
          return Ok(());
        }
      }
    }

    method SkipTrivia(stopAtNewline: bool) returns (r: Result<bool, Error>)
      requires Valid()
      modifies this, reader, chunk
      ensures Valid()
      ensures Agrees(r, At(), Lexis.SkipTrivia(source, old(At()), stopAtNewline))
    {
      while true
        invariant Valid()
        invariant Lexis.SkipTrivia(source, old(At()), stopAtNewline) == Lexis.SkipTrivia(source, At(), stopAtNewline)
        decreases |source.bytes| - offset
      {
        var next :- Peek();
        if next.None? {
          return Ok(false);
        }
        var endedLine;
        if next.value == ';' as byte {
          var _ :- SkipLine();
          endedLine := true;
        } else if IsWhitespace(next.value) {
          var taken :- Take();
          endedLine := next.value == '\n' as byte;
        } else {
          return Ok(false);
        }
        if stopAtNewline && endedLine {
          return Ok(true);
        }
      }
    }

    method ReadToken(stopAtNewline: bool) returns (r: Result<Option<Token>, Error>)
      requires Valid() && headerStart.Some?
      modifies this, reader, chunk
      ensures Valid()
      ensures Agrees(r, At(), Lexis.ReadToken(source, old(At()), stopAtNewline))
    {
      hide Lexis.SkipTrivia, Lexis.CompleteToken, Lexis.Locates, WellFormed;
      var ended :- SkipTrivia(stopAtNewline);
      if ended {
        return Ok(None);
      }
      var start := offset;
      var first :- Take();
      if first.None? {
        return Ok(None);
      }
      peakToken := Max(peakToken, 1);
      HoldsOne(first.value);
      var completed :- CompleteToken([first.value]);
      r := Ok(Some(Token(completed, start)));
    }

    method RequiredToken() returns (r: Result<Token, Error>)
      requires Valid() && headerStart.Some?
      modifies this, reader, chunk
      ensures Valid()
      ensures Agrees(r, At(), Lexis.RequiredToken(source, old(At())))
    {
      var token :- ReadToken(false);
      r := if token.None? then Err(Malformed(offset)) else Ok(token.value);
    }

    method Expect(expected: seq<byte>) returns (r: Result<(), Error>)
      requires Valid() && headerStart.Some?
      modifies this, reader, chunk
      ensures Valid()
      ensures Agrees(r, At(), Lexis.Expect(source, old(At()), expected))
    {
      var token :- RequiredToken();
      r := if token.bytes != expected then Err(Malformed(token.offset)) else Ok(());
    }

    /** The bytes of a header's token that starts `|prefix|` bytes before the current offset. */
    ghost predicate Holds(prefix: seq<byte>)
      reads this
    {
      && |prefix| <= offset <= |source.bytes| && prefix == source.bytes[offset - |prefix|..offset]
      && headerStart.Some? && headerStart.value <= offset - |prefix|
    }

    /** The token's completion, with its bytes gathered from its first byte. */
    ghost predicate Gathers(r: Result<seq<byte>, Error>, from: int, step: Step<()>)
      reads this
    {
      match step
      case Ok((_, next)) => At() == next && r.Ok? && Holds(r.value) && offset - |r.value| == from
      case Err(error) => r == Err(error)
    }

    lemma HoldsOne(b: byte)
      requires 0 < offset <= |source.bytes| && b == source.bytes[offset - 1]
      requires headerStart.Some? && headerStart.value < offset
      ensures Holds([b])
    {
      assert source.bytes[offset - 1..offset] == [b];
    }

    lemma TakesOneMore(from: nat, end: nat)
      requires from <= end < |source.bytes|
      ensures source.bytes[from..end] + [source.bytes[end]] == source.bytes[from..end + 1]
    {
    }

    /** Consumes one byte, and appends it to the token's buffer. */
    method TakeInto(bytes: seq<byte>) returns (r: Result<Option<byte>, Error>, extended: seq<byte>)
      requires Valid() && Holds(bytes)
      modifies this, reader, chunk
      ensures Valid()
      ensures Agrees(r, At(), Lexis.Take(source, old(At())))
      ensures r.Ok? && r.value.Some? ==> extended == bytes + [r.value.value] && Holds(extended)
    {
      extended := bytes;
      ghost var from := offset - |bytes|;
      var next :- Take();
      if next.Some? {
        TakesOneMore(from, offset - 1);
        extended := bytes + [next.value];
        peakToken := Max(peakToken, |extended|);
      }
      r := Ok(next);
    }

    method CompleteToken(bytes: seq<byte>) returns (r: Result<seq<byte>, Error>)
      requires Valid() && |bytes| == 1 && Holds(bytes)
      modifies this, reader, chunk
      ensures Valid()
      ensures Gathers(r, old(offset) - 1, Lexis.CompleteToken(source, old(At()), bytes[0]))
    {
      hide Lexis.Locates;
      var first := bytes[0];
      if first == '"' as byte {
        r := CompleteQuotedToken(bytes);
        return;
      }
      if IsSigil(first) {
        var next :- Peek();
        if next == Some('"' as byte) {
          var _, quoted :- TakeInto(bytes);
          r := CompleteQuotedToken(quoted);
          return;
        }
      }
      if !IsWord(first) && !IsSigil(first) && first != '!' as byte {
        return Ok(bytes);
      }
      r := CompleteWord(bytes);
    }

    method CompleteWord(prefix: seq<byte>) returns (r: Result<seq<byte>, Error>)
      requires Valid() && Holds(prefix)
      modifies this, reader, chunk
      ensures Valid()
      ensures Gathers(r, old(offset) - |prefix|, Lexis.Word(source, old(At())))
    {
      var bytes := prefix;
      while true
        invariant Valid() && Holds(bytes) && offset - |bytes| == old(offset) - |prefix|
        invariant Lexis.Word(source, old(At())) == Lexis.Word(source, At())
        decreases |source.bytes| - offset
      {
        var next :- Peek();
        if next.None? || !IsWord(next.value) {
          return Ok(bytes);
        }
        var _, extended :- TakeInto(bytes);
        bytes := extended;
      }
    }

    method CompleteQuotedToken(prefix: seq<byte>) returns (r: Result<seq<byte>, Error>)
      requires Valid() && Holds(prefix)
      modifies this, reader, chunk
      ensures Valid()
      ensures Gathers(r, old(offset) - |prefix|, Lexis.Quoted(source, old(At())))
    {
      hide Holds;
      var bytes := prefix;
      while true
        invariant Valid() && Holds(bytes) && offset - |bytes| == old(offset) - |prefix|
        invariant Lexis.Quoted(source, old(At())) == Lexis.Quoted(source, At())
        decreases |source.bytes| - offset
      {
        var next, extended :- TakeInto(bytes);
        if next.None? {
          return Err(Malformed(offset));
        }
        bytes := extended;
        if next.value == '"' as byte {
          return Ok(bytes);
        }
        if IsLineBreak(next.value) {
          return Err(Malformed(offset - 1));
        }
        if next.value == '\\' as byte {
          var escaped :- CompleteQuotedEscape(bytes);
          bytes := escaped;
        }
      }
    }

    method CompleteQuotedEscape(prefix: seq<byte>) returns (r: Result<seq<byte>, Error>)
      requires Valid() && Holds(prefix)
      modifies this, reader, chunk
      ensures Valid()
      ensures Gathers(r, old(offset) - |prefix|, Lexis.Escape(source, old(At())))
    {
      var next :- Peek();
      if next == Some('\\' as byte) {
        var _, whole :- TakeInto(prefix);
        return Ok(whole);
      }
      var bytes := prefix;
      ghost var first := At();
      for i := 0 to 2
        invariant Valid() && Holds(bytes) && offset - |bytes| == old(offset) - |prefix|
        invariant i == 0 ==> At() == first
        invariant i == 1 ==> Lexis.HexDigit(source, first) == Ok(((), At()))
        invariant i == 2 ==> Lexis.Escape(source, old(At())) == Ok(((), At()))
      {
        var digit, extended :- TakeInto(bytes);
        if digit.None? {
          return Err(Malformed(offset));
        }
        if !IsHexDigit(digit.value) {
          return Err(Malformed(offset - 1));
        }
        bytes := extended;
      }
      r := Ok(bytes);
    }

    /** Consumes a balanced header group after its opening delimiter. */
    method ConsumeGroup(opening: byte) returns (r: Result<(), Error>)
      requires Valid() && IsOpening(opening)
      requires InHeader()
      modifies this, reader, chunk
      ensures Valid()
      ensures Agrees(r, At(), Lexis.Group(source, old(At()), [MatchingClose(opening).value]))
    {
      hide Lexis.Locates;
      var closing := [MatchingClose(opening).value];
      while closing != []
        invariant Valid()
        invariant Lexis.Group(source, old(At()), [MatchingClose(opening).value]) == Lexis.Group(source, At(), closing)
        invariant headerStart == old(headerStart) && |closing| <= offset - headerStart.value
        decreases |source.bytes| - offset
      {
        peakGroup := Max(peakGroup, |closing|);
        var token :- RequiredToken();
        if |token.bytes| == 1 {
          var b := token.bytes[0];
          if IsOpening(b) {
            closing := closing + [MatchingClose(b).value];
          } else if IsClosing(b) {
            if b != closing[|closing| - 1] {
              return Err(Malformed(token.offset));
            }
            closing := closing[..|closing| - 1];
          }
        }
      }
      r := Ok(());
    }

    static function Max(a: nat, b: nat): nat {
      if a < b then b else a
    }

    /** The mode that the loop's three flags encode. */
    static function ModeOf(quoted: bool, comment: bool, escapeDigits: nat): Mode {
      if comment then InComment
      else if escapeDigits == 2 then InEscape
      else if escapeDigits == 1 then AfterDigit
      else if quoted then InQuote
      else Plain
    }

    /** Streams past a function body after its opening brace, keeping no bytes. */
    method SkipBody() returns (r: Result<(), Error>)
      requires Valid()
      modifies this, reader, chunk
      ensures Valid()
      ensures Agrees(r, At(), Lexis.Body(source, old(At()), 1, Plain))
    {
      hide Lexis.Locates;
      var depth := 1;
      var quoted, comment := false, false;
      var escapeDigits := 0;
      while true
        invariant Valid() && depth >= 1 && 0 <= escapeDigits <= 2
        invariant comment ==> !quoted
        invariant escapeDigits != 0 ==> quoted
        invariant Lexis.Body(source, old(At()), 1, Plain)
               == Lexis.Body(source, At(), depth, ModeOf(quoted, comment, escapeDigits))
        decreases |source.bytes| - offset
      {
        var next :- Take();
        if next.None? {
          return Err(Malformed(offset));
        }
        var b := next.value;
        if comment {
          comment := b != '\n' as byte;
        } else if escapeDigits == 2 && b == '\\' as byte {
          escapeDigits := 0;
        } else if escapeDigits != 0 && !IsHexDigit(b) {
          return Err(Malformed(offset - 1));
        } else if escapeDigits != 0 {
          escapeDigits := escapeDigits - 1;
        } else if quoted && IsLineBreak(b) {
          return Err(Malformed(offset - 1));
        } else if quoted && b == '"' as byte {
          quoted := false;
        } else if quoted && b == '\\' as byte {
          escapeDigits := 2;
        } else if quoted {
        } else if b == ';' as byte {
          comment := true;
        } else if b == '"' as byte {
          quoted := true;
        } else if b == '{' as byte {
          depth := depth + 1;
        } else if b == '}' as byte {
          if depth == 1 {
            return Ok(());
          }
          depth := depth - 1;
        }
      }
    }
  }
}
