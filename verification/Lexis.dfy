/**
 The lexical level of disassembled LLVM, as functions of the complete input.

 Every function starts at a cursor and returns its value with the cursor it stops at. Nothing here
 knows about chunks or short reads: Streams proves that the buffered reader computes the same.
 */
module Lexis {
  import opened Base

  const HEADER_LIMIT: nat := 1024 * 1024

  datatype Ending = Eof | Broken

  /** Everything a reader will deliver before it reports its end, and how it reports it. */
  datatype Source = Source(bytes: seq<byte>, ending: Ending)

  datatype Error =
    | Malformed(offset: nat)
    | OverBudget(offset: nat)
    | OffsetOverflow(offset: nat)
    | ReaderFailed

  /** The consumed byte count, and the start of the active header budget. */
  datatype Cursor = Cursor(offset: nat, header: Option<nat>)

  type Step<+T> = Result<(T, Cursor), Error>

  datatype Token = Token(bytes: seq<byte>, offset: nat)

  /** The cursor lies in the input, its offset is a u64, and the header budget is respected. */
  ghost predicate Fits(s: Source, c: Cursor) {
    && c.offset <= |s.bytes|
    && c.offset <= U64_MAX
    && (c.header.Some? ==> c.header.value <= c.offset <= c.header.value + HEADER_LIMIT)
  }

  /**
   What every read keeps: success moves forward inside the input and the budget, and a budget
   failure happens exactly one limit after the header's start.
   */
  ghost predicate Keeps<T>(s: Source, c: Cursor, r: Step<T>) {
    match r
    case Ok((_, next)) => Fits(s, next) && next.header == c.header && c.offset <= next.offset
    case Err(e) => Locates(s, c, c.offset, e)
  }

  /** The same for a read that may also blame the token before the cursor. */
  ghost predicate KeepsAfter<T>(s: Source, c: Cursor, token: Token, r: Step<T>) {
    r == Err(Malformed(token.offset)) || Keeps(s, c, r)
  }

  /** An error lies at or after `from`, and says what is wrong with the input or the budget. */
  ghost predicate Locates(s: Source, c: Cursor, from: nat, e: Error) {
    match e
    case OverBudget(offset) => c.header.Some? && offset == c.header.value + HEADER_LIMIT
    case Malformed(offset) => from <= offset <= |s.bytes|
    case OffsetOverflow(offset) => offset == U64_MAX < |s.bytes|
    case ReaderFailed => s.ending.Broken?
  }

  predicate IsWhitespace(b: byte) {
    b == ' ' as byte || b == '\t' as byte || b == '\n' as byte || b == 12 || b == '\r' as byte
  }

  predicate IsDigit(b: byte) {
    '0' as byte <= b <= '9' as byte
  }

  predicate IsHexDigit(b: byte) {
    IsDigit(b) || 'a' as byte <= b <= 'f' as byte || 'A' as byte <= b <= 'F' as byte
  }

  predicate IsWord(b: byte) {
    || IsDigit(b)
    || 'a' as byte <= b <= 'z' as byte
    || 'A' as byte <= b <= 'Z' as byte
    || b == '_' as byte || b == '.' as byte || b == '$' as byte || b == '-' as byte
  }

  predicate IsSigil(b: byte) {
    b == '@' as byte || b == '%' as byte || b == '$' as byte
  }

  predicate IsLineBreak(b: byte) {
    b == '\n' as byte || b == '\r' as byte
  }

  predicate IsOpening(b: byte) {
    b == '(' as byte || b == '[' as byte || b == '{' as byte || b == '<' as byte
  }

  predicate IsClosing(b: byte) {
    b == ')' as byte || b == ']' as byte || b == '}' as byte || b == '>' as byte
  }

  function MatchingClose(b: byte): Option<byte> {
    if b == '(' as byte then Some(')' as byte)
    else if b == '[' as byte then Some(']' as byte)
    else if b == '{' as byte then Some('}' as byte)
    else if b == '<' as byte then Some('>' as byte)
    else None
  }

  /** Each class as its ASCII codes. */
  lemma ClassesAre(b: byte)
    ensures IsWhitespace(b) <==> b in {9, 10, 12, 13, 32}
    ensures IsLineBreak(b) <==> b in {10, 13}
    ensures IsDigit(b) <==> 48 <= b <= 57
    ensures IsHexDigit(b) <==> 48 <= b <= 57 || 65 <= b <= 70 || 97 <= b <= 102
    ensures IsWord(b) <==> 48 <= b <= 57 || 65 <= b <= 90 || 97 <= b <= 122 || b in {36, 45, 46, 95}
    ensures IsSigil(b) <==> b in {36, 37, 64}
    ensures IsOpening(b) <==> b in {40, 60, 91, 123}
    ensures IsClosing(b) <==> b in {41, 62, 93, 125}
    ensures MatchingClose(b) == if b == 40 then Some(41)
                                else if b in {60, 91, 123} then Some(b + 2)
                                else None
  {
  }

  /** Quoted text between two indices: no bare quote, backslash or line break, only whole escapes. */
  predicate Escaped(x: seq<byte>, from: nat, end: nat)
    requires from <= end <= |x|
    decreases end - from
  {
    if from == end then true
    else if x[from] != '\\' as byte then
      x[from] != '"' as byte && !IsLineBreak(x[from]) && Escaped(x, from + 1, end)
    else if from + 1 < end && x[from + 1] == '\\' as byte then Escaped(x, from + 2, end)
    else from + 2 < end && IsHexDigit(x[from + 1]) && IsHexDigit(x[from + 2]) && Escaped(x, from + 3, end)
  }

  lemma {:induction false} EscapedShift(x: seq<byte>, y: seq<byte>, from: nat, end: nat, shift: nat)
    requires shift <= from <= end <= |x| && end - shift <= |y|
    requires forall i :: from <= i < end ==> x[i] == y[i - shift]
    ensures Escaped(x, from, end) == Escaped(y, from - shift, end - shift)
    decreases end - from
  {
    if from < end {
      var next := if x[from] != '\\' as byte then from + 1
                  else if from + 1 < end && x[from + 1] == '\\' as byte then from + 2
                  else from + 3;
      if next <= end {
        EscapedShift(x, y, next, end, shift);
      }
    }
  }

  /** A quoted part that starts at `from`, after its opening quote, and ends with the token. */
  predicate Delimited(bytes: seq<byte>, from: nat) {
    from < |bytes| && bytes[|bytes| - 1] == '"' as byte && Escaped(bytes, from, |bytes| - 1)
  }

  /** The validated form that symbol decoding relies on. */
  predicate WellFormed(bytes: seq<byte>) {
    && |bytes| > 0
    && (bytes[0] == '"' as byte ==> Delimited(bytes, 1))
    && (|bytes| > 1 && IsSigil(bytes[0]) && bytes[1] == '"' as byte ==> Delimited(bytes, 2))
  }

  function Peek(s: Source, c: Cursor): Result<Option<byte>, Error> {
    if c.offset < |s.bytes| then Ok(Some(s.bytes[c.offset]))
    else if s.ending.Eof? then Ok(None)
    else Err(ReaderFailed)
  }

  function Take(s: Source, c: Cursor): (r: Step<Option<byte>>)
    requires Fits(s, c)
    ensures Keeps(s, c, r)
    ensures r.Ok? && r.value.0.Some? ==> r.value.1.offset == c.offset + 1
    ensures r.Ok? && r.value.0.None? ==> r.value.1 == c && c.offset == |s.bytes|
  {
    var next :- Peek(s, c);
    if next.None? then Ok((None, c))
    else if c.header.Some? && c.offset - c.header.value == HEADER_LIMIT then Err(OverBudget(c.offset))
    else if c.offset == U64_MAX then Err(OffsetOverflow(c.offset))
    else Ok((next, c.(offset := c.offset + 1)))
  }

  function SkipLine(s: Source, c: Cursor): (r: Step<()>)
    requires Fits(s, c)
    ensures Keeps(s, c, r)
    decreases |s.bytes| - c.offset
  {
    var (next, c1) :- Take(s, c);
    if next == None || next == Some('\n' as byte) then Ok(((), c1)) else SkipLine(s, c1)
  }

  /** Skips whitespace and comments. The value tells whether a newline or comment ended the header. */
  function SkipTrivia(s: Source, c: Cursor, stopAtNewline: bool): (r: Step<bool>)
    requires Fits(s, c)
    ensures Keeps(s, c, r)
    decreases |s.bytes| - c.offset
  {
    var next :- Peek(s, c);
    if next.None? then Ok((false, c))
    else if next.value == ';' as byte then
      var (_, c1) :- SkipLine(s, c);
      if stopAtNewline then Ok((true, c1)) else SkipTrivia(s, c1, stopAtNewline)
    else if IsWhitespace(next.value) then
      var (_, c1) :- Take(s, c);
      if stopAtNewline && next.value == '\n' as byte then Ok((true, c1)) else SkipTrivia(s, c1, stopAtNewline)
    else Ok((false, c))
  }

  function HexDigit(s: Source, c: Cursor): (r: Step<()>)
    requires Fits(s, c)
    ensures Keeps(s, c, r)
  {
    var (digit, c1) :- Take(s, c);
    if digit.None? then Err(Malformed(c1.offset))
    else if !IsHexDigit(digit.value) then Err(Malformed(c1.offset - 1))
    else Ok(((), c1))
  }

  /** The rest of an escape after its backslash: a second backslash or two hex digits. */
  function Escape(s: Source, c: Cursor): (r: Step<()>)
    requires Fits(s, c)
    ensures Keeps(s, c, r)
    ensures r.Ok? ==>
              || (r.value.1.offset == c.offset + 1 && s.bytes[c.offset] == '\\' as byte)
              || (&& r.value.1.offset == c.offset + 2 && s.bytes[c.offset] != '\\' as byte
                  && IsHexDigit(s.bytes[c.offset]) && IsHexDigit(s.bytes[c.offset + 1]))
  {
    var next :- Peek(s, c);
    if next == Some('\\' as byte) then
      var (_, c1) :- Take(s, c);
      Ok(((), c1))
    else
      var (_, c1) :- HexDigit(s, c);
      HexDigit(s, c1)
  }

  /** The rest of a quoted token after its opening quote. */
  function Quoted(s: Source, c: Cursor): (r: Step<()>)
    requires Fits(s, c)
    ensures Keeps(s, c, r)
    decreases |s.bytes| - c.offset
  {
    var (next, c1) :- Take(s, c);
    if next.None? then Err(Malformed(c1.offset))
    else if next.value == '"' as byte then Ok(((), c1))
    else if IsLineBreak(next.value) then Err(Malformed(c1.offset - 1))
    else if next.value == '\\' as byte then
      var (_, c2) :- Escape(s, c1);
      Quoted(s, c2)
    else Quoted(s, c1)
  }

  /** An accepted quoted part holds only whole escapes and ends with its first bare quote. */
  lemma {:induction false} QuotedIsEscaped(s: Source, c: Cursor)
    requires Fits(s, c) && Quoted(s, c).Ok?
    ensures var end := Quoted(s, c).value.1.offset - 1;
            && c.offset <= end < |s.bytes|
            && s.bytes[end] == '"' as byte
            && Escaped(s.bytes, c.offset, end)
    decreases |s.bytes| - c.offset
  {
    var (next, c1) := Take(s, c).value;
    if next.value == '\\' as byte {
      QuotedIsEscaped(s, Escape(s, c1).value.1);
    } else if next.value != '"' as byte {
      QuotedIsEscaped(s, c1);
    }
  }

  function Word(s: Source, c: Cursor): (r: Step<()>)
    requires Fits(s, c)
    ensures Keeps(s, c, r)
    ensures r.Ok? ==> forall i :: c.offset <= i < r.value.1.offset ==> IsWord(s.bytes[i])
    decreases |s.bytes| - c.offset
  {
    var next :- Peek(s, c);
    if next.Some? && IsWord(next.value) then
      var (_, c1) :- Take(s, c);
      Word(s, c1)
    else Ok(((), c))
  }

  lemma WholeToken(s: Source, start: nat, end: nat, opening: nat)
    requires start < opening < end <= |s.bytes| && opening <= start + 2
    requires s.bytes[start] == '"' as byte || (IsSigil(s.bytes[start]) && opening == start + 2)
    requires s.bytes[end - 1] == '"' as byte && Escaped(s.bytes, opening, end - 1)
    requires s.bytes[start] == '"' as byte ==> opening == start + 1
    ensures WellFormed(s.bytes[start..end])
  {
    EscapedShift(s.bytes, s.bytes[start..end], opening, end - 1, start);
  }

  /** The rest of a token after its first byte. */
  function CompleteToken(s: Source, c: Cursor, first: byte): (r: Step<()>)
    requires Fits(s, c) && c.offset > 0 && s.bytes[c.offset - 1] == first
    ensures Keeps(s, c, r)
    ensures r.Ok? ==> WellFormed(s.bytes[c.offset - 1..r.value.1.offset])
  {
    hide Quoted, Word, Escaped, WellFormed;
    var start := c.offset - 1;
    if first == '"' as byte then
      var (_, c1) :- Quoted(s, c);
      QuotedIsEscaped(s, c);
      WholeToken(s, start, c1.offset, start + 1);
      Ok(((), c1))
    else if IsSigil(first) then
      var next :- Peek(s, c);
      if next == Some('"' as byte) then
        var (_, c1) :- Take(s, c);
        var (_, c2) :- Quoted(s, c1);
        QuotedIsEscaped(s, c1);
        WholeToken(s, start, c2.offset, start + 2);
        Ok(((), c2))
      else Word(s, c)
    else if !IsWord(first) && first != '!' as byte then Ok(((), c))
    else Word(s, c)
  }

  function ReadToken(s: Source, c: Cursor, stopAtNewline: bool): (r: Step<Option<Token>>)
    requires Fits(s, c)
    ensures Keeps(s, c, r)
    ensures r.Ok? && r.value.0.Some? ==>
              var (t, next) := (r.value.0.value, r.value.1);
              && c.offset <= t.offset < next.offset
              && t.bytes == s.bytes[t.offset..next.offset]
              && WellFormed(t.bytes)
  {
    hide WellFormed;
    var (ended, c1) :- SkipTrivia(s, c, stopAtNewline);
    if ended then Ok((None, c1))
    else
      var (first, c2) :- Take(s, c1);
      if first.None? then Ok((None, c2))
      else
        var (_, c3) :- CompleteToken(s, c2, first.value);
        Ok((Some(Token(s.bytes[c1.offset..c3.offset], c1.offset)), c3))
  }

  function RequiredToken(s: Source, c: Cursor): (r: Step<Token>)
    requires Fits(s, c)
    ensures Keeps(s, c, r)
    ensures r.Ok? ==>
              var (t, next) := r.value;
              && c.offset <= t.offset < next.offset
              && t.bytes == s.bytes[t.offset..next.offset]
              && WellFormed(t.bytes)
  {
    var (token, c1) :- ReadToken(s, c, false);
    if token.None? then Err(Malformed(c1.offset)) else Ok((token.value, c1))
  }

  function Expect(s: Source, c: Cursor, expected: seq<byte>): (r: Step<()>)
    requires Fits(s, c)
    ensures Keeps(s, c, r)
  {
    var (token, c1) :- RequiredToken(s, c);
    if token.bytes != expected then Err(Malformed(token.offset)) else Ok(((), c1))
  }

  predicate Mismatches(closing: seq<byte>, x: seq<byte>)
    requires closing != []
  {
    |x| == 1 && IsClosing(x[0]) && x[0] != closing[|closing| - 1]
  }

  /** The stack of awaited closing delimiters after a token that matches it. */
  function AfterToken(closing: seq<byte>, x: seq<byte>): seq<byte>
    requires closing != []
  {
    if |x| != 1 then closing
    else if IsOpening(x[0]) then closing + [MatchingClose(x[0]).value]
    else if IsClosing(x[0]) then closing[..|closing| - 1]
    else closing
  }

  /** Consumes tokens until the stack of awaited closing delimiters is empty. */
  function Group(s: Source, c: Cursor, closing: seq<byte>): (r: Step<()>)
    requires Fits(s, c)
    ensures Keeps(s, c, r)
    decreases |s.bytes| - c.offset
  {
    if closing == [] then Ok(((), c))
    else
      var (token, c1) :- RequiredToken(s, c);
      if Mismatches(closing, token.bytes) then Err(Malformed(token.offset))
      else Group(s, c1, AfterToken(closing, token.bytes))
  }

  /** Where a body scan stands between two bytes. An escape is inside a quote, after its backslash. */
  datatype Mode = Plain | InComment | InQuote | InEscape | AfterDigit

  datatype Turn = Go(depth: nat, mode: Mode) | Close | Reject

  /** What one byte does to a body scan. */
  function Advance(depth: nat, mode: Mode, b: byte): Turn {
    match mode
    case InComment => Go(depth, if b == '\n' as byte then Plain else InComment)
    case InEscape =>
      if b == '\\' as byte then Go(depth, InQuote) else if IsHexDigit(b) then Go(depth, AfterDigit) else Reject
    case AfterDigit => if IsHexDigit(b) then Go(depth, InQuote) else Reject
    case InQuote =>
      if IsLineBreak(b) then Reject
      else Go(depth, if b == '"' as byte then Plain else if b == '\\' as byte then InEscape else InQuote)
    case Plain =>
      if b == ';' as byte then Go(depth, InComment)
      else if b == '"' as byte then Go(depth, InQuote)
      else if b == '{' as byte then Go(depth + 1, Plain)
      else if b != '}' as byte then Go(depth, Plain)
      else if depth <= 1 then Close
      else Go(depth - 1, Plain)
  }

  /** Consumes a function body after its opening brace, through the brace that closes it. */
  function Body(s: Source, c: Cursor, depth: nat, mode: Mode): (r: Step<()>)
    requires Fits(s, c)
    ensures Keeps(s, c, r)
    decreases |s.bytes| - c.offset
  {
    var (next, c1) :- Take(s, c);
    if next.None? then Err(Malformed(c1.offset))
    else
      match Advance(depth, mode, next.value)
      case Close => Ok(((), c1))
      case Reject => Err(Malformed(c1.offset - 1))
      case Go(nextDepth, nextMode) => Body(s, c1, nextDepth, nextMode)
  }
}
