/**
 The two treatments of delimiters agree. The constant-memory body scan stops exactly where a body's
 text ends, and wherever the stack-based group reader accepts a brace group both stop together.
 */
module Bodies {
  import opened Base
  import opened Lexis
  import opened Symbols

  /** The same position without a header budget. */
  function Free(c: Cursor): Cursor {
    c.(header := None)
  }

  // ---- One lexical element at a time ----

  lemma {:induction false} CommentInBody(s: Source, c: Cursor, depth: nat)
    requires Fits(s, c) && SkipLine(s, c).Ok?
    ensures Body(s, Free(c), depth, InComment) == Body(s, Free(SkipLine(s, c).value.1), depth, Plain)
    decreases |s.bytes| - c.offset
  {
    var (next, c1) := Take(s, c).value;
    if next.Some? && next.value != '\n' as byte {
      CommentInBody(s, c1, depth);
    }
  }

  lemma {:induction false} TriviaInBody(s: Source, c: Cursor, depth: nat)
    requires Fits(s, c) && SkipTrivia(s, c, false).Ok?
    ensures Body(s, Free(c), depth, Plain) == Body(s, Free(SkipTrivia(s, c, false).value.1), depth, Plain)
    decreases |s.bytes| - c.offset
  {
    if c.offset < |s.bytes| {
      var b := s.bytes[c.offset];
      if b == ';' as byte {
        var (_, c1) := Take(s, c).value;
        CommentInBody(s, c1, depth);
        TriviaInBody(s, SkipLine(s, c).value.1, depth);
      } else if IsWhitespace(b) {
        TriviaInBody(s, Take(s, c).value.1, depth);
      }
    }
  }

  lemma EscapeInBody(s: Source, c: Cursor, depth: nat)
    requires Fits(s, c) && Escape(s, c).Ok?
    ensures Body(s, Free(c), depth, InEscape) == Body(s, Free(Escape(s, c).value.1), depth, InQuote)
  {
    var c1 := Take(s, c).value.1;
    if s.bytes[c.offset] != '\\' as byte {
      assert Body(s, Free(c), depth, InEscape) == Body(s, Free(c1), depth, AfterDigit);
    }
  }

  lemma {:induction false} QuotedInBody(s: Source, c: Cursor, depth: nat)
    requires Fits(s, c) && Quoted(s, c).Ok?
    ensures Body(s, Free(c), depth, InQuote) == Body(s, Free(Quoted(s, c).value.1), depth, Plain)
    decreases |s.bytes| - c.offset
  {
    var (next, c1) := Take(s, c).value;
    if next.value == '\\' as byte {
      EscapeInBody(s, c1, depth);
      QuotedInBody(s, Escape(s, c1).value.1, depth);
    } else if next.value != '"' as byte {
      QuotedInBody(s, c1, depth);
    }
  }

  lemma {:induction false} WordInBody(s: Source, c: Cursor, depth: nat)
    requires Fits(s, c) && Word(s, c).Ok?
    ensures Body(s, Free(c), depth, Plain) == Body(s, Free(Word(s, c).value.1), depth, Plain)
    decreases |s.bytes| - c.offset
  {
    if c.offset < |s.bytes| && IsWord(s.bytes[c.offset]) {
      WordInBody(s, Take(s, c).value.1, depth);
    }
  }

  /** A body scan over one plain byte, by what that byte does to the nesting. */
  function AfterByte(s: Source, next: Cursor, depth: nat, b: byte): Step<()>
    requires Fits(s, next)
  {
    if b == '{' as byte then Body(s, next, depth + 1, Plain)
    else if b != '}' as byte then Body(s, next, depth, Plain)
    else if depth <= 1 then Ok(((), next))
    else Body(s, next, depth - 1, Plain)
  }

  lemma CompleteTokenInBody(s: Source, c: Cursor, depth: nat)
    requires Fits(s, c) && 0 < c.offset && CompleteToken(s, c, s.bytes[c.offset - 1]).Ok?
    ensures var first := s.bytes[c.offset - 1];
            var next := CompleteToken(s, c, first).value.1;
            if first == '"' as byte then Body(s, Free(c), depth, InQuote) == Body(s, Free(next), depth, Plain)
            else if IsWord(first) || IsSigil(first) || first == '!' as byte then
              Body(s, Free(c), depth, Plain) == Body(s, Free(next), depth, Plain)
            else next == c
  {
    var first := s.bytes[c.offset - 1];
    if first == '"' as byte {
      QuotedInBody(s, c, depth);
    } else if IsSigil(first) && c.offset < |s.bytes| && s.bytes[c.offset] == '"' as byte {
      QuotedInBody(s, Take(s, c).value.1, depth);
    } else if IsWord(first) || IsSigil(first) || first == '!' as byte {
      WordInBody(s, c, depth);
    }
  }

  /** A whole token changes the nesting exactly when it is a lone brace. */
  lemma TokenInBody(s: Source, c: Cursor, depth: nat)
    requires Fits(s, c) && RequiredToken(s, c).Ok?
    ensures var (token, next) := RequiredToken(s, c).value;
            Body(s, Free(c), depth, Plain)
            == if |token.bytes| == 1 then AfterByte(s, Free(next), depth, token.bytes[0])
               else Body(s, Free(next), depth, Plain)
  {
    hide CompleteToken, SkipTrivia, WellFormed, Body;
    TriviaInBody(s, c, depth);
    StopsAtToken(s, c);
    var c1 := SkipTrivia(s, c, false).value.1;
    var (first, c2) := Take(s, c1).value;
    FirstByteInBody(s, c1, depth);
    CompleteTokenInBody(s, c2, depth);
  }

  /** One byte outside quotes and comments. */
  lemma FirstByteInBody(s: Source, c: Cursor, depth: nat)
    requires Fits(s, c) && Take(s, c).Ok? && Take(s, c).value.0.Some? && s.bytes[c.offset] != ';' as byte
    ensures var (first, next) := Take(s, c).value;
            Body(s, Free(c), depth, Plain)
            == if first.value == '"' as byte then Body(s, Free(next), depth, InQuote)
               else AfterByte(s, Free(next), depth, first.value)
  {
  }

  lemma {:induction false} StopsAtToken(s: Source, c: Cursor)
    requires Fits(s, c) && SkipTrivia(s, c, false).Ok?
    ensures var (ended, next) := SkipTrivia(s, c, false).value;
            && !ended
            && (next.offset < |s.bytes| ==> s.bytes[next.offset] != ';' as byte)
    decreases |s.bytes| - c.offset
  {
    if c.offset < |s.bytes| {
      if s.bytes[c.offset] == ';' as byte {
        StopsAtToken(s, SkipLine(s, c).value.1);
      } else if IsWhitespace(s.bytes[c.offset]) {
        StopsAtToken(s, Take(s, c).value.1);
      }
    }
  }

  // ---- Groups ----

  function Braces(closing: seq<byte>): nat {
    if closing == [] then 0
    else Braces(closing[..|closing| - 1]) + if closing[|closing| - 1] == '}' as byte then 1 else 0
  }

  lemma BracesPush(closing: seq<byte>, b: byte)
    ensures Braces(closing + [b]) == Braces(closing) + if b == '}' as byte then 1 else 0
  {
    assert (closing + [b])[..|closing|] == closing;
  }

  lemma {:induction false} BottomBrace(closing: seq<byte>)
    requires closing != [] && closing[0] == '}' as byte
    ensures Braces(closing) >= 1
    decreases |closing|
  {
    if |closing| > 1 {
      BottomBrace(closing[..|closing| - 1]);
    }
  }

  /** The number of awaited closing braces is the body scan's depth. */
  lemma BracesAfterToken(closing: seq<byte>, x: seq<byte>)
    requires closing != [] && closing[0] == '}' as byte
    requires !Mismatches(closing, x)
    ensures var after := AfterToken(closing, x);
            && (after != [] ==> after[0] == '}' as byte)
            && Braces(after)
               == Braces(closing) + (if x == ['{' as byte] then 1 else 0) - (if x == ['}' as byte] then 1 else 0)
            && (after == [] ==> x == ['}' as byte] && Braces(closing) == 1)
            && (after != [] ==> Braces(after) >= 1)
  {
    var after := AfterToken(closing, x);
    if |x| == 1 {
      assert x == [x[0]];
      if IsOpening(x[0]) {
        BracesPush(closing, MatchingClose(x[0]).value);
      }
    }
    if after != [] {
      BottomBrace(after);
    }
  }

  lemma {:induction false} StackMatchesDepth(s: Source, c: Cursor, closing: seq<byte>)
    requires Fits(s, c) && Group(s, c, closing).Ok?
    requires closing != [] && closing[0] == '}' as byte
    ensures Body(s, Free(c), Braces(closing), Plain) == Ok(((), Free(Group(s, c, closing).value.1)))
    decreases |s.bytes| - c.offset
  {
    hide RequiredToken;
    var (token, c1) := RequiredToken(s, c).value;
    var after := AfterToken(closing, token.bytes);
    BracesAfterToken(closing, token.bytes);
    TokenInBody(s, c, Braces(closing));
    if after != [] {
      StackMatchesDepth(s, c1, after);
    }
  }

  /** Wherever a brace group is accepted, the body scan from the same place stops at the same byte. */
  lemma BodyEndsWhereGroupEnds(s: Source, c: Cursor)
    requires Fits(s, c) && Group(s, c, ['}' as byte]).Ok?
    ensures Body(s, Free(c), 1, Plain) == Ok(((), Free(Group(s, c, ['}' as byte]).value.1)))
  {
    hide Group, Body;
    assert Braces(['}' as byte]) == 1;
    StackMatchesDepth(s, c, ['}' as byte]);
  }

  // ---- The text of a body, without the automaton ----

  /** A body is written from plain bytes, comments that end their line, and quoted text. */
  datatype Piece = Byte(b: byte) | Comment(text: seq<byte>) | Quotation(text: seq<byte>)
  datatype Pieces = End | More(first: Piece, rest: Pieces)

  predicate IsPiece(p: Piece) {
    match p
    case Byte(b) => b != ';' as byte && b != '"' as byte
    case Comment(text) => forall i :: 0 <= i < |text| ==> text[i] != '\n' as byte
    case Quotation(text) => Escaped(text, 0, |text|)
  }

  function Spell(p: Piece): seq<byte> {
    match p
    case Byte(b) => [b]
    case Comment(text) => [';' as byte] + text + ['\n' as byte]
    case Quotation(text) => ['"' as byte] + text + ['"' as byte]
  }

  function SpellAll(ps: Pieces): seq<byte> {
    match ps
    case End => []
    case More(first, rest) => Spell(first) + SpellAll(rest)
  }

  /** The nesting after one piece, unless it closes the body. */
  function Nested(p: Piece, depth: nat): Option<nat> {
    if !IsPiece(p) then None
    else if p == Byte('{' as byte) then Some(depth + 1)
    else if p != Byte('}' as byte) then Some(depth)
    else if depth <= 1 then None
    else Some(depth - 1)
  }

  function Nesting(ps: Pieces, depth: nat): Option<nat> {
    match ps
    case End => Some(depth)
    case More(first, rest) =>
      var after := Nested(first, depth);
      if after.None? then None else Nesting(rest, after.value)
  }

  /** The input between two offsets is the text of a body, up to the brace that closes it. */
  ghost predicate IsBody(s: Source, start: nat, end: nat, ps: Pieces) {
    && Nesting(ps, 1) == Some(1)
    && Occurs(s.bytes, start, SpellAll(ps))
    && end == start + |SpellAll(ps)| + 1 <= |s.bytes|
    && s.bytes[end - 1] == '}' as byte
  }

  lemma {:induction false} LineAccepts(s: Source, c: Cursor, end: nat)
    requires Fits(s, c) && c.header.None? && c.offset <= end < |s.bytes| && end < U64_MAX
    requires forall i :: c.offset <= i < end ==> s.bytes[i] != '\n' as byte
    requires s.bytes[end] == '\n' as byte
    ensures SkipLine(s, c) == Ok(((), Cursor(end + 1, None)))
    decreases end - c.offset
  {
    if c.offset < end {
      LineAccepts(s, Cursor(c.offset + 1, None), end);
    }
  }

  lemma CommentAccepted(s: Source, c: Cursor, text: seq<byte>, depth: nat)
    requires Fits(s, c) && c.header.None? && IsPiece(Comment(text))
    requires Occurs(s.bytes, c.offset, Spell(Comment(text))) && c.offset + |Spell(Comment(text))| <= U64_MAX
    ensures Body(s, c, depth, Plain) == Body(s, Cursor(c.offset + |Spell(Comment(text))|, None), depth, Plain)
  {
    var i, spelled := c.offset, Spell(Comment(text));
    var end := i + |text| + 1;
    assert s.bytes[i] == spelled[0] && s.bytes[end] == spelled[|text| + 1];
    forall k | i + 1 <= k < end ensures s.bytes[k] != '\n' as byte {
      assert s.bytes[k] == spelled[k - i] == text[k - i - 1];
    }
    LineAccepts(s, Cursor(i + 1, None), end);
    CommentInBody(s, Cursor(i + 1, None), depth);
  }

  lemma QuotationAccepted(s: Source, c: Cursor, text: seq<byte>, depth: nat)
    requires Fits(s, c) && c.header.None? && IsPiece(Quotation(text))
    requires Occurs(s.bytes, c.offset, Spell(Quotation(text))) && c.offset + |Spell(Quotation(text))| <= U64_MAX
    ensures Body(s, c, depth, Plain) == Body(s, Cursor(c.offset + |Spell(Quotation(text))|, None), depth, Plain)
  {
    var i, spelled := c.offset, Spell(Quotation(text));
    var end := i + |text| + 1;
    assert s.bytes[i] == spelled[0] && s.bytes[end] == spelled[|text| + 1];
    forall k | i + 1 <= k < end ensures s.bytes[k] == text[k - i - 1] {
      assert s.bytes[k] == spelled[k - i];
    }
    EscapedShift(s.bytes, text, i + 1, end, i + 1);
    QuotedAccepts(s, Cursor(i + 1, None), end);
    QuotedInBody(s, Cursor(i + 1, None), depth);
  }

  /** The scan passes over one accepted piece, changing only its depth. */
  lemma PieceAccepted(s: Source, c: Cursor, p: Piece, depth: nat)
    requires Fits(s, c) && c.header.None? && Nested(p, depth).Some?
    requires Occurs(s.bytes, c.offset, Spell(p)) && c.offset + |Spell(p)| <= U64_MAX
    ensures Body(s, c, depth, Plain) == Body(s, Cursor(c.offset + |Spell(p)|, None), Nested(p, depth).value, Plain)
  {
    match p
    case Byte(b) =>
      assert s.bytes[c.offset] == Spell(p)[0];
      assert Advance(depth, Plain, b) == Go(Nested(p, depth).value, Plain);
    case Comment(text) => CommentAccepted(s, c, text, depth);
    case Quotation(text) => QuotationAccepted(s, c, text, depth);
  }

  lemma {:induction false} PiecesAccepted(s: Source, c: Cursor, ps: Pieces, depth: nat)
    requires Fits(s, c) && c.header.None? && Nesting(ps, depth).Some?
    requires Occurs(s.bytes, c.offset, SpellAll(ps)) && c.offset + |SpellAll(ps)| <= U64_MAX
    ensures Body(s, c, depth, Plain)
         == Body(s, Cursor(c.offset + |SpellAll(ps)|, None), Nesting(ps, depth).value, Plain)
    decreases ps
  {
    hide Body, Nested, Spell;
    match ps
    case End =>
    case More(first, rest) =>
      OccursParts(s.bytes, c.offset, Spell(first), SpellAll(rest));
      PieceAccepted(s, c, first, depth);
      PiecesAccepted(s, Cursor(c.offset + |Spell(first)|, None), rest, Nested(first, depth).value);
  }

  // ---- Every accepted body is such a text ----

  lemma {:induction false} LineEndsComment(s: Source, c: Cursor, depth: nat)
    requires Fits(s, c) && c.header.None? && Body(s, c, depth, InComment).Ok?
    ensures SkipLine(s, c).Ok?
    ensures var end := SkipLine(s, c).value.1.offset - 1;
            && c.offset <= end < |s.bytes| && s.bytes[end] == '\n' as byte
            && forall i :: c.offset <= i < end ==> s.bytes[i] != '\n' as byte
    decreases |s.bytes| - c.offset
  {
    var (next, c1) := Take(s, c).value;
    if next.value != '\n' as byte {
      LineEndsComment(s, c1, depth);
    }
  }

  lemma {:induction false} QuoteEndsQuotation(s: Source, c: Cursor, depth: nat)
    requires Fits(s, c) && c.header.None? && Body(s, c, depth, InQuote).Ok?
    ensures Quoted(s, c).Ok?
    decreases |s.bytes| - c.offset
  {
    var (next, c1) := Take(s, c).value;
    if next.value == '\\' as byte {
      var (second, c2) := Take(s, c1).value;
      if second.value == '\\' as byte {
        QuoteEndsQuotation(s, c2, depth);
      } else {
        assert Body(s, c1, depth, InEscape) == Body(s, c2, depth, AfterDigit);
        QuoteEndsQuotation(s, Take(s, c2).value.1, depth);
      }
    } else if next.value != '"' as byte {
      QuoteEndsQuotation(s, c1, depth);
    }
  }

  lemma OccursWhole(x: seq<byte>, i: nat, a: byte, text: seq<byte>, b: byte)
    requires i + |text| + 2 <= |x| && x[i] == a && x[i + 1 + |text|] == b
    requires text == x[i + 1..i + 1 + |text|]
    ensures Occurs(x, i, [a] + text + [b])
  {
    var whole := [a] + text + [b];
    forall k | 0 <= k < |whole| ensures x[i + k] == whole[k] {
      if 0 < k <= |text| {
        assert whole[k] == text[k - 1] == x[i + 1..i + 1 + |text|][k - 1];
      }
    }
  }

  lemma CommentFirst(s: Source, c: Cursor, depth: nat) returns (p: Piece)
    requires Fits(s, c) && c.header.None? && Body(s, c, depth, Plain).Ok? && s.bytes[c.offset] == ';' as byte
    ensures p.Comment? && IsPiece(p) && Occurs(s.bytes, c.offset, Spell(p)) && c.offset + |Spell(p)| <= U64_MAX
  {
    var c1 := Take(s, c).value.1;
    LineEndsComment(s, c1, depth);
    var end := SkipLine(s, c1).value.1.offset - 1;
    p := Comment(s.bytes[c1.offset..end]);
    OccursWhole(s.bytes, c.offset, ';' as byte, p.text, '\n' as byte);
  }

  lemma QuotationFirst(s: Source, c: Cursor, depth: nat) returns (p: Piece)
    requires Fits(s, c) && c.header.None? && Body(s, c, depth, Plain).Ok? && s.bytes[c.offset] == '"' as byte
    ensures p.Quotation? && IsPiece(p) && Occurs(s.bytes, c.offset, Spell(p)) && c.offset + |Spell(p)| <= U64_MAX
  {
    var c1 := Take(s, c).value.1;
    QuoteEndsQuotation(s, c1, depth);
    QuotedIsEscaped(s, c1);
    var end := Quoted(s, c1).value.1.offset - 1;
    p := Quotation(s.bytes[c1.offset..end]);
    EscapedShift(s.bytes, p.text, c1.offset, end, c1.offset);
    OccursWhole(s.bytes, c.offset, '"' as byte, p.text, '"' as byte);
  }

  /** An accepted body that does not close at once starts with a piece. */
  lemma FirstPiece(s: Source, c: Cursor, depth: nat) returns (p: Piece)
    requires Fits(s, c) && c.header.None? && depth >= 1 && Body(s, c, depth, Plain).Ok?
    requires !(depth == 1 && s.bytes[c.offset] == '}' as byte)
    ensures Nested(p, depth).Some? && Nested(p, depth).value >= 1
    ensures Occurs(s.bytes, c.offset, Spell(p)) && c.offset + |Spell(p)| <= U64_MAX && |Spell(p)| > 0
  {
    var b := s.bytes[c.offset];
    if b == ';' as byte {
      p := CommentFirst(s, c, depth);
    } else if b == '"' as byte {
      p := QuotationFirst(s, c, depth);
    } else {
      p := Byte(b);
    }
  }

  lemma {:induction false} BodyPieces(s: Source, c: Cursor, depth: nat) returns (ps: Pieces)
    requires Fits(s, c) && c.header.None? && depth >= 1 && Body(s, c, depth, Plain).Ok?
    ensures Nesting(ps, depth) == Some(1) && Occurs(s.bytes, c.offset, SpellAll(ps))
    ensures var end := Body(s, c, depth, Plain).value.1.offset;
            end == c.offset + |SpellAll(ps)| + 1 <= |s.bytes| && s.bytes[end - 1] == '}' as byte
    decreases |s.bytes| - c.offset
  {
    if depth == 1 && s.bytes[c.offset] == '}' as byte {
      return End;
    }
    var first := FirstPiece(s, c, depth);
    hide Body, Nested, Spell, Occurs;
    PieceAccepted(s, c, first, depth);
    var rest := BodyPieces(s, Cursor(c.offset + |Spell(first)|, None), Nested(first, depth).value);
    OccursJoin(s.bytes, c.offset, Spell(first), SpellAll(rest));
    ps := More(first, rest);
  }

  lemma BodyIsAccepted(s: Source, start: nat, end: nat, ps: Pieces)
    requires start <= end <= |s.bytes| && end <= U64_MAX && IsBody(s, start, end, ps)
    ensures Body(s, Cursor(start, None), 1, Plain) == Ok(((), Cursor(end, None)))
  {
    BodyCloses(s, end);
    hide Body, Occurs;
    PiecesAccepted(s, Cursor(start, None), ps, 1);
  }

  lemma BodyCloses(s: Source, end: nat)
    requires 0 < end <= |s.bytes| && end <= U64_MAX && s.bytes[end - 1] == '}' as byte
    ensures Body(s, Cursor(end - 1, None), 1, Plain) == Ok(((), Cursor(end, None)))
  {
    assert Take(s, Cursor(end - 1, None)) == Ok((Some('}' as byte), Cursor(end, None)));
  }

  /**
   The constant-memory scan accepts exactly the texts of bodies, and stops just after the first brace
   at depth one outside quotes and comments.
   */
  lemma BodyAcceptsExactlyBodies(s: Source, start: nat, end: nat)
    requires start <= end <= |s.bytes| && end <= U64_MAX
    ensures Body(s, Cursor(start, None), 1, Plain) == Ok(((), Cursor(end, None)))
       <==> exists ps :: IsBody(s, start, end, ps)
  {
    hide Body, Occurs;
    if Body(s, Cursor(start, None), 1, Plain) == Ok(((), Cursor(end, None))) {
      var ps := BodyPieces(s, Cursor(start, None), 1);
      assert IsBody(s, start, end, ps);
    }
    if ps :| IsBody(s, start, end, ps) {
      BodyIsAccepted(s, start, end, ps);
    }
  }
}
