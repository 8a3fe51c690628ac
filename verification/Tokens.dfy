/**
 What the lexical reads accept, apart from their code: a token is the longest word, or a whole quoted
 name, after spaces and comments, and a group is a balanced sequence of tokens.
 */
module Tokens {
  import opened Base
  import opened Lexis
  import Symbols

  function At(i: nat): Cursor {
    Cursor(i, None)
  }

  /** A read succeeds and ends at an offset. */
  ghost predicate Ends<T>(r: Step<T>, j: nat) {
    r.Ok? && r.value.1 == At(j)
  }

  // ---- Lines ----

  /** The rest of one line: through its newline, or to the input's end if it has none. */
  ghost predicate IsLine(s: Source, start: nat, end: nat) {
    && start <= end <= |s.bytes|
    && (forall i :: start <= i < end - 1 ==> s.bytes[i] != '\n' as byte)
    && ((start < end && s.bytes[end - 1] == '\n' as byte)
        || (end == |s.bytes| && s.ending.Eof? && (start < end ==> s.bytes[end - 1] != '\n' as byte)))
  }

  lemma LineEndsOnce(s: Source, start: nat, end: nat, other: nat)
    requires IsLine(s, start, end) && IsLine(s, start, other)
    ensures end == other
  {
  }

  lemma {:induction false} SkipsOneLine(s: Source, c: Cursor)
    requires Fits(s, c) && SkipLine(s, c).Ok?
    ensures IsLine(s, c.offset, SkipLine(s, c).value.1.offset)
    decreases |s.bytes| - c.offset
  {
    var (next, c1) := Take(s, c).value;
    if next.Some? && next.value != '\n' as byte {
      SkipsOneLine(s, c1);
    }
  }

  lemma {:induction false} LineIsSkipped(s: Source, i: nat, j: nat)
    requires IsLine(s, i, j) && j <= U64_MAX
    ensures SkipLine(s, At(i)) == Ok(((), At(j)))
    decreases j - i
  {
    if i < j && s.bytes[i] != '\n' as byte {
      LineIsSkipped(s, i + 1, j);
    }
  }

  // ---- Spaces and comments ----

  predicate IsSpace(b: byte) {
    IsWhitespace(b) && b != '\n' as byte
  }

  /** A comment with its newline. */
  ghost predicate IsComment(s: Source, i: nat, j: nat) {
    i < j && IsLine(s, i, j) && s.bytes[i] == ';' as byte && s.bytes[j - 1] == '\n' as byte
  }

  datatype Trivia = Gap | Blank(rest: Trivia) | Comment(end: nat, rest: Trivia)

  /** Spaces, newlines and comments from `i` to `k`. */
  ghost predicate IsTrivia(s: Source, i: nat, t: Trivia, k: nat)
    decreases t
  {
    match t
    case Gap => i == k
    case Blank(rest) => i < |s.bytes| && IsWhitespace(s.bytes[i]) && IsTrivia(s, i + 1, rest, k)
    case Comment(end, rest) => IsComment(s, i, end) && IsTrivia(s, end, rest, k)
  }

  /** Spaces alone, so that `k` is on the line of `i`. */
  ghost predicate AreSpaces(s: Source, i: nat, k: nat) {
    i <= k <= |s.bytes| && forall n :: i <= n < k ==> IsSpace(s.bytes[n])
  }

  /** Nothing but spaces and a comment is left of a line, which ends at `j`. */
  ghost predicate EndsLine(s: Source, i: nat, j: nat) {
    j <= U64_MAX && exists k: nat ::
      && AreSpaces(s, i, k)
      && if k == |s.bytes| then s.ending.Eof? && j == k
         else if s.bytes[k] == ';' as byte then IsLine(s, k, j)
         else s.bytes[k] == '\n' as byte && j == k + 1
  }

  predicate StartsToken(s: Source, k: nat) {
    k < |s.bytes| && !IsWhitespace(s.bytes[k]) && s.bytes[k] != ';' as byte
  }

  lemma {:induction false} TriviaIsSkipped(s: Source, i: nat, t: Trivia, k: nat)
    requires IsTrivia(s, i, t, k) && StartsToken(s, k) && k <= U64_MAX
    ensures i <= k && SkipTrivia(s, At(i), false) == Ok((false, At(k)))
    decreases t
  {
    hide SkipLine, IsComment;
    match t
    case Gap =>
    case Blank(rest) => TriviaIsSkipped(s, i + 1, rest, k);
    case Comment(end, rest) =>
      TriviaIsSkipped(s, end, rest, k);
      CommentIsSkipped(s, i, end);
  }

  lemma CommentIsSkipped(s: Source, i: nat, end: nat)
    requires IsComment(s, i, end) && end <= U64_MAX
    ensures i < end <= |s.bytes| && s.bytes[i] == ';' as byte && SkipLine(s, At(i)) == Ok(((), At(end)))
  {
    LineIsSkipped(s, i, end);
  }

  lemma {:induction false} SkippedIsTrivia(s: Source, i: nat) returns (t: Trivia)
    requires Fits(s, At(i)) && SkipTrivia(s, At(i), false).Ok?
    requires SkipTrivia(s, At(i), false).value.1.offset < |s.bytes|
    ensures var k := SkipTrivia(s, At(i), false).value.1.offset; IsTrivia(s, i, t, k) && StartsToken(s, k)
    decreases |s.bytes| - i
  {
    hide SkipLine;
    t := Gap;
    if s.bytes[i] == ';' as byte {
      var c1 := SkipLine(s, At(i)).value.1;
      SkipsOneLine(s, At(i));
      t := SkippedIsTrivia(s, c1.offset);
      t := Comment(c1.offset, t);
    } else if IsWhitespace(s.bytes[i]) {
      t := SkippedIsTrivia(s, i + 1);
      t := Blank(t);
    }
  }

  lemma {:induction false} SpacesAreSkipped(s: Source, i: nat, k: nat)
    requires AreSpaces(s, i, k) && k <= U64_MAX
    ensures SkipTrivia(s, At(i), true) == SkipTrivia(s, At(k), true)
    decreases k - i
  {
    if i < k {
      assert IsSpace(s.bytes[i]);
      SpacesAreSkipped(s, i + 1, k);
    }
  }

  /** How far the spaces from an offset go. */
  function AfterSpaces(s: Source, i: nat): (k: nat)
    requires i <= |s.bytes|
    ensures AreSpaces(s, i, k) && (k < |s.bytes| ==> !IsSpace(s.bytes[k]))
    decreases |s.bytes| - i
  {
    if i < |s.bytes| && IsSpace(s.bytes[i]) then AfterSpaces(s, i + 1) else i
  }

  // ---- Tokens ----

  /** The longest run of word bytes. */
  ghost predicate IsRun(s: Source, i: nat, j: nat) {
    && i <= j <= |s.bytes| && (forall n :: i <= n < j ==> IsWord(s.bytes[n]))
    && if j < |s.bytes| then !IsWord(s.bytes[j]) else s.ending.Eof?
  }

  /** Whole escapes and other bytes up to the first bare quote. */
  ghost predicate IsQuoted(s: Source, i: nat, j: nat) {
    i < j <= |s.bytes| && s.bytes[j - 1] == '"' as byte && Escaped(s.bytes, i, j - 1)
  }

  /** A quoted text, a quoted name, the longest word with its sigil, or one byte of punctuation. */
  ghost predicate IsText(s: Source, k: nat, j: nat) {
    && StartsToken(s, k) && k < j <= |s.bytes|
    && var first := s.bytes[k];
    if first == '"' as byte then IsQuoted(s, k + 1, j)
    else if IsSigil(first) && k + 1 < |s.bytes| && s.bytes[k + 1] == '"' as byte then IsQuoted(s, k + 2, j)
    else if IsSigil(first) || IsWord(first) || first == '!' as byte then IsRun(s, k + 1, j)
    else j == k + 1
  }

  /** After spaces, newlines and comments from `i`, the token `x` ends at `j`. */
  ghost predicate TokenIs(s: Source, i: nat, x: seq<byte>, j: nat) {
    && j <= |s.bytes| && j <= U64_MAX
    && exists t, k: nat :: IsTrivia(s, i, t, k) && IsText(s, k, j) && x == s.bytes[k..j]
  }

  /** The same with the token on the line of `i`. */
  ghost predicate LineTokenIs(s: Source, i: nat, x: seq<byte>, j: nat) {
    && j <= |s.bytes| && j <= U64_MAX
    && exists k: nat :: AreSpaces(s, i, k) && IsText(s, k, j) && x == s.bytes[k..j]
  }

  lemma {:induction false} WordIsRun(s: Source, i: nat)
    requires Fits(s, At(i)) && Word(s, At(i)).Ok?
    ensures IsRun(s, i, Word(s, At(i)).value.1.offset)
    decreases |s.bytes| - i
  {
    if i < |s.bytes| && IsWord(s.bytes[i]) {
      WordIsRun(s, i + 1);
    }
  }

  lemma {:induction false} RunIsWord(s: Source, i: nat, j: nat)
    requires IsRun(s, i, j) && j <= U64_MAX
    ensures Ends(Word(s, At(i)), j)
    decreases j - i
  {
    if i < j {
      assert IsWord(s.bytes[i]);
      RunIsWord(s, i + 1, j);
    }
  }

  lemma QuotedIff(s: Source, i: nat, j: nat)
    requires j <= U64_MAX && Fits(s, At(i))
    ensures Ends(Quoted(s, At(i)), j) <==> IsQuoted(s, i, j)
  {
    hide Quoted, Escaped;
    if Ends(Quoted(s, At(i)), j) {
      QuotedIsEscaped(s, At(i));
    }
    if IsQuoted(s, i, j) {
      Symbols.QuotedAccepts(s, At(i), j - 1);
    }
  }

  lemma RunIff(s: Source, i: nat, j: nat)
    requires j <= U64_MAX && Fits(s, At(i))
    ensures Ends(Word(s, At(i)), j) <==> IsRun(s, i, j)
  {
    hide Word, IsRun;
    if Ends(Word(s, At(i)), j) {
      WordIsRun(s, i);
    }
    if IsRun(s, i, j) {
      RunIsWord(s, i, j);
    }
  }

  /** A token's text is what is read from its first byte. */
  lemma TextIff(s: Source, k: nat, j: nat)
    requires StartsToken(s, k) && k < U64_MAX && j <= U64_MAX
    ensures Take(s, At(k)) == Ok((Some(s.bytes[k]), At(k + 1)))
    ensures Ends(CompleteToken(s, At(k + 1), s.bytes[k]), j) <==> IsText(s, k, j)
  {
    hide Quoted, IsQuoted, IsRun, WellFormed, Escaped;
    var first := s.bytes[k];
    if first == '"' as byte {
      QuotedIff(s, k + 1, j);
      QuotedSpans(s, k + 1, j);
    } else if IsSigil(first) && k + 1 < |s.bytes| && s.bytes[k + 1] == '"' as byte {
      if k + 1 < U64_MAX {
        assert Take(s, At(k + 1)) == Ok((Some('"' as byte), At(k + 2)));
        QuotedIff(s, k + 2, j);
      }
      QuotedSpans(s, k + 2, j);
    } else if IsSigil(first) || IsWord(first) || first == '!' as byte {
      RunIff(s, k + 1, j);
      RunSpans(s, k + 1, j);
    }
  }

  lemma QuotedSpans(s: Source, i: nat, j: nat)
    ensures IsQuoted(s, i, j) ==> i < j <= |s.bytes|
  {
  }

  lemma RunSpans(s: Source, i: nat, j: nat)
    ensures IsRun(s, i, j) ==> i <= j <= |s.bytes|
  {
  }

  /** A token is read exactly where its text stands after spaces, newlines and comments. */
  lemma TokenIff(s: Source, i: nat, x: seq<byte>, j: nat)
    ensures TokenIs(s, i, x, j) <==>
              Fits(s, At(i)) && Ends(RequiredToken(s, At(i)), j) && RequiredToken(s, At(i)).value.0.bytes == x
  {
    hide SkipTrivia, Take, CompleteToken, WellFormed, IsQuoted, IsRun, IsTrivia;
    if TokenIs(s, i, x, j) {
      var t, k: nat :| IsTrivia(s, i, t, k) && IsText(s, k, j) && x == s.bytes[k..j];
      TextStarts(s, k, j);
      TriviaIsSkipped(s, i, t, k);
      TextIff(s, k, j);
    }
    if Fits(s, At(i)) && Ends(RequiredToken(s, At(i)), j) && RequiredToken(s, At(i)).value.0.bytes == x {
      var k := RequiredToken(s, At(i)).value.0.offset;
      TokenStarts(s, i, false);
      var t := SkippedIsTrivia(s, i);
      TextIff(s, k, j);
    }
  }

  /** Where a token is read. */
  lemma TokenRead(s: Source, i: nat) returns (x: seq<byte>, e: nat)
    requires Fits(s, At(i)) && RequiredToken(s, At(i)).Ok?
    ensures TokenIs(s, i, x, e) && i < e && Fits(s, At(e)) && WellFormed(x)
    ensures RequiredToken(s, At(i)).value.0.bytes == x && RequiredToken(s, At(i)).value.1 == At(e)
  {
    hide ReadToken, TokenIs, WellFormed;
    x, e := RequiredToken(s, At(i)).value.0.bytes, RequiredToken(s, At(i)).value.1.offset;
    TokenIff(s, i, x, e);
  }

  /** What is read where a token stands. */
  lemma TokenGives(s: Source, i: nat, x: seq<byte>, e: nat)
    requires TokenIs(s, i, x, e)
    ensures Fits(s, At(i)) && i < e && Fits(s, At(e)) && WellFormed(x) && RequiredToken(s, At(i)).Ok?
    ensures RequiredToken(s, At(i)).value.0.bytes == x && RequiredToken(s, At(i)).value.1 == At(e)
  {
    hide ReadToken, TokenIs, WellFormed;
    TokenIff(s, i, x, e);
  }

  lemma TextStarts(s: Source, k: nat, j: nat)
    requires IsText(s, k, j)
    ensures StartsToken(s, k) && k < j
  {
  }

  /** A token starts where the spaces and comments before it end. */
  lemma TokenStarts(s: Source, i: nat, stopAtNewline: bool)
    requires Fits(s, At(i)) && ReadToken(s, At(i), stopAtNewline).Ok?
    requires ReadToken(s, At(i), stopAtNewline).value.0.Some?
    ensures var (token, c) := ReadToken(s, At(i), stopAtNewline).value; var k := token.value.offset;
            && SkipTrivia(s, At(i), stopAtNewline) == Ok((false, At(k))) && k < |s.bytes| && k < U64_MAX
            && Ends(CompleteToken(s, At(k + 1), s.bytes[k]), c.offset) && token.value.bytes == s.bytes[k..c.offset]
  {
    hide SkipTrivia, CompleteToken, WellFormed;
  }

  // ---- Tokens on a line ----

  lemma {:induction false} SkippedSpaces(s: Source, i: nat)
    requires Fits(s, At(i)) && SkipTrivia(s, At(i), true).Ok?
    ensures AfterSpaces(s, i) <= U64_MAX
    decreases |s.bytes| - i
  {
    if i < |s.bytes| && IsSpace(s.bytes[i]) {
      SkippedSpaces(s, i + 1);
    }
  }

  /** A token on the line is read exactly where its text stands after spaces. */
  lemma LineTokenIff(s: Source, i: nat, x: seq<byte>, j: nat)
    ensures LineTokenIs(s, i, x, j) <==>
              && Fits(s, At(i)) && Ends(ReadToken(s, At(i), true), j)
              && ReadToken(s, At(i), true).value.0.Some? && ReadToken(s, At(i), true).value.0.value.bytes == x
  {
    hide Take, CompleteToken, WellFormed, IsQuoted, IsRun;
    if LineTokenIs(s, i, x, j) {
      var k: nat :| AreSpaces(s, i, k) && IsText(s, k, j) && x == s.bytes[k..j];
      SpacesAreSkipped(s, i, k);
      TextIff(s, k, j);
    }
    if Fits(s, At(i)) && Ends(ReadToken(s, At(i), true), j) && ReadToken(s, At(i), true).value.0.Some? &&
       ReadToken(s, At(i), true).value.0.value.bytes == x {
      var k := AfterSpaces(s, i);
      SkippedSpaces(s, i);
      SpacesAreSkipped(s, i, k);
      TokenStarts(s, i, true);
      TextIff(s, k, j);
    }
  }

  /** No token is on the line exactly where it ends. */
  lemma LineEndIff(s: Source, i: nat, j: nat)
    ensures EndsLine(s, i, j) <==>
              Fits(s, At(i)) && Ends(ReadToken(s, At(i), true), j) && ReadToken(s, At(i), true).value.0.None?
  {
    hide CompleteToken, WellFormed;
    if EndsLine(s, i, j) {
      var k: nat :|
        && AreSpaces(s, i, k)
        && if k == |s.bytes| then s.ending.Eof? && j == k
           else if s.bytes[k] == ';' as byte then IsLine(s, k, j)
           else s.bytes[k] == '\n' as byte && j == k + 1;
      SpacesAreSkipped(s, i, k);
      if k < |s.bytes| && s.bytes[k] == ';' as byte {
        LineIsSkipped(s, k, j);
      }
    }
    if Fits(s, At(i)) && Ends(ReadToken(s, At(i), true), j) && ReadToken(s, At(i), true).value.0.None? {
      var k := AfterSpaces(s, i);
      SkippedSpaces(s, i);
      SpacesAreSkipped(s, i, k);
      if k < |s.bytes| && s.bytes[k] == ';' as byte {
        SkipsOneLine(s, At(k));
      }
    }
  }

  // ---- Groups ----

  /** A token that neither opens nor closes a group. */
  predicate StandsAlone(x: seq<byte>) {
    |x| == 1 ==> !IsOpening(x[0]) && !IsClosing(x[0])
  }

  /** Balanced tokens: single ones, and groups between delimiters that match. */
  datatype Forest =
    | Bare
    | Leaf(x: seq<byte>, end: nat, rest: Forest)
    | Nest(opening: byte, start: nat, inner: Forest, stop: nat, end: nat, rest: Forest)

  ghost predicate IsForest(s: Source, i: nat, g: Forest, k: nat)
    decreases g
  {
    match g
    case Bare => i == k
    case Leaf(x, end, rest) => StandsAlone(x) && TokenIs(s, i, x, end) && IsForest(s, end, rest, k)
    case Nest(opening, start, inner, stop, end, rest) =>
      && IsOpening(opening) && TokenIs(s, i, [opening], start)
      && IsForest(s, start, inner, stop) && TokenIs(s, stop, [MatchingClose(opening).value], end)
      && IsForest(s, end, rest, k)
  }

  /** After an opening delimiter: balanced tokens, and the delimiter that closes it. */
  ghost predicate GroupIs(s: Source, i: nat, close: byte, j: nat) {
    exists g, k :: IsForest(s, i, g, k) && TokenIs(s, k, [close], j)
  }

  lemma {:induction false} ForestIsConsumed(s: Source, i: nat, g: Forest, k: nat, closing: seq<byte>)
    requires IsForest(s, i, g, k) && closing != [] && Fits(s, At(k))
    ensures Fits(s, At(i)) && Group(s, At(i), closing) == Group(s, At(k), closing)
    decreases g
  {
    hide RequiredToken, TokenIs, WellFormed;
    match g
    case Bare =>
    case Leaf(x, end, rest) =>
      ForestIsConsumed(s, end, rest, k, closing);
      TokenIff(s, i, x, end);
    case Nest(opening, start, inner, stop, end, rest) =>
      var close := MatchingClose(opening).value;
      ForestIsConsumed(s, end, rest, k, closing);
      TokenIff(s, stop, [close], end);
      assert (closing + [close])[..|closing|] == closing;
      ForestIsConsumed(s, start, inner, stop, closing + [close]);
      TokenIff(s, i, [opening], start);
  }

  /** What is consumed down to one delimiter fewer is balanced, up to that delimiter. */
  lemma {:induction false} ConsumedIsForest(s: Source, i: nat, closing: seq<byte>) returns (g: Forest, k: nat, j: nat)
    requires closing != [] && Fits(s, At(i)) && Group(s, At(i), closing).Ok?
    ensures IsForest(s, i, g, k) && TokenIs(s, k, [closing[|closing| - 1]], j) && i < j && Fits(s, At(j))
    ensures Group(s, At(i), closing) == Group(s, At(j), closing[..|closing| - 1])
    decreases |s.bytes| - i
  {
    hide TokenIs, WellFormed, ReadToken;
    var (token, c1) := RequiredToken(s, At(i)).value;
    var x, e := token.bytes, c1.offset;
    TokenIff(s, i, x, e);
    if StandsAlone(x) {
      g, k, j := ConsumedIsForest(s, e, closing);
      g := Leaf(x, e, g);
    } else if IsClosing(x[0]) {
      assert x == [closing[|closing| - 1]];
      g, k, j := Bare, i, e;
    } else {
      var close := MatchingClose(x[0]).value;
      var inner, stop, end := ConsumedIsForest(s, e, closing + [close]);
      assert (closing + [close])[..|closing|] == closing;
      g, k, j := ConsumedIsForest(s, end, closing);
      assert x == [x[0]];
      g := Nest(x[0], e, inner, stop, end, g);
    }
  }

  /** A group is accepted exactly if it is balanced, and ends with the delimiter that closes it. */
  lemma GroupIff(s: Source, i: nat, close: byte, j: nat)
    requires IsClosing(close)
    ensures GroupIs(s, i, close, j) <==> Fits(s, At(i)) && Ends(Group(s, At(i), [close]), j)
  {
    hide TokenIs, IsForest, RequiredToken, WellFormed;
    if GroupIs(s, i, close, j) {
      var g, k :| IsForest(s, i, g, k) && TokenIs(s, k, [close], j);
      TokenIff(s, k, [close], j);
      ForestIsConsumed(s, i, g, k, [close]);
    }
    if Fits(s, At(i)) && Ends(Group(s, At(i), [close]), j) {
      var g, k, end := ConsumedIsForest(s, i, [close]);
      assert [close][..0] == [];
    }
  }
}
