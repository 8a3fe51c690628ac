/**
 When a scan succeeds, where an index's ranges lie and what they hold. An input is indexed exactly if it
 can be cut into consecutive tiles. It has only one such tiling, and its definitions are exactly the
 tiles that are functions, aliases and ifuncs.
 */
module Ranges {
  import opened Base
  import opened IndexRecords
  import opened Lexis
  import opened Symbols
  import opened Grammar
  import opened Headers
  import opened Parts
  import opened Tokens
  import Bodies
  import Budgets

  // ---- Where single reads stop ----

  lemma {:induction false} TriviaEndsLine(s: Source, c: Cursor)
    requires Fits(s, c) && SkipTrivia(s, c, true).Ok? && SkipTrivia(s, c, true).value.0
    ensures AtLineEnd(s, SkipTrivia(s, c, true).value.1.offset)
    decreases |s.bytes| - c.offset
  {
    if c.offset < |s.bytes| {
      var b := s.bytes[c.offset];
      if b == ';' as byte {
        SkipsOneLine(s, c);
      } else if IsWhitespace(b) && b != '\n' as byte {
        TriviaEndsLine(s, Take(s, c).value.1);
      }
    }
  }

  lemma MissingTokenEndsLine(s: Source, c: Cursor)
    requires Fits(s, c) && ReadToken(s, c, true).Ok? && ReadToken(s, c, true).value.0.None?
    ensures AtLineEnd(s, ReadToken(s, c, true).value.1.offset)
  {
    var (ended, c1) := SkipTrivia(s, c, true).value;
    if ended {
      TriviaEndsLine(s, c);
    }
  }

  lemma {:induction false} SuffixEndsLine(s: Source, c: Cursor)
    requires Fits(s, c) && AliasSuffix(s, c).Ok?
    ensures AtLineEnd(s, AliasSuffix(s, c).value.1.offset)
    decreases |s.bytes| - c.offset
  {
    hide ReadToken, AliasSuffixPart;
    var (token, c1) := ReadToken(s, c, true).value;
    if token.None? {
      MissingTokenEndsLine(s, c);
    } else {
      SuffixEndsLine(s, AliasSuffixPart(s, c1).value.1);
    }
  }

  lemma AliasEndsLine(s: Source, c: Cursor)
    requires Fits(s, c) && AliasTarget(s, c).Ok?
    ensures AtLineEnd(s, AliasTarget(s, c).value.1.offset)
  {
    hide RequiredToken, OpenedGroup, AliasType, AliasOperand, AliasSuffix, WellFormed;
    var (first, c1) := RequiredToken(s, c).value;
    var c3 := AliasType(s, OpenedGroup(s, c1, first).value.1).value.1;
    SuffixEndsLine(s, AliasOperand(s, c3).value.1);
  }

  /** A header that gives a kind ends its line, and gives no function's. */
  lemma {:induction false} HeadEndsLine(s: Source, c: Cursor)
    requires Fits(s, c) && GlobalHead(s, c).Ok? && GlobalHead(s, c).value.0.Some?
    ensures GlobalHead(s, c).value.0 != Some(Function) && AtLineEnd(s, GlobalHead(s, c).value.1.offset)
    decreases |s.bytes| - c.offset
  {
    hide RequiredToken, AfterModifier, AliasTarget, IsKeyword, WellFormed;
    var (token, c1) := RequiredToken(s, c).value;
    if IsKeyword(token.bytes) {
      AliasEndsLine(s, c1);
    } else {
      HeadEndsLine(s, AfterModifier(s, c1, token).value.1);
    }
  }

  lemma LineHeadEndsLine(s: Source, c: Cursor)
    requires Fits(s, c) && LineHead(s, c).Ok? && LineHead(s, c).value.0.kind.Some?
    ensures LineHead(s, c).value.0.kind != Some(Function) && AtLineEnd(s, LineHead(s, c).value.1.offset)
  {
    hide RequiredToken, Expect, GlobalHead, WellFormed;
    var c1 := RequiredToken(s, c).value.1;
    HeadEndsLine(s, Expect(s, c1, Text("=")).value.1);
  }

  lemma {:induction false} PrefixStaysInLine(s: Source, c: Cursor, length: nat)
    requires Fits(s, c) && c.header.None? && Prefix(s, c, length).Ok?
    ensures var end := Prefix(s, c, length).value.1.offset;
            && (forall i :: c.offset <= i < end - 1 ==> s.bytes[i] != '\n' as byte)
            && (end == c.offset + length || AtLineEnd(s, end))
            && (length > 0 && c.offset < |s.bytes| ==> c.offset < end)
    decreases length
  {
    if length > 0 {
      var (next, c1) := Take(s, c).value;
      if next.Some? && next.value != '\n' as byte {
        PrefixStaysInLine(s, c1, length - 1);
      }
    }
  }

  // ---- Tiles ----

  /** The keyword of a function definition, followed by whitespace or the end of the input. */
  ghost predicate StartsFunction(s: Source, start: nat) {
    && Occurs(s.bytes, start, Text("define"))
    && (start + 6 < |s.bytes| ==> IsWhitespace(s.bytes[start + 6]))
  }

  /**
   A function's text: its keyword, a header within the limit that names it, and a body of any length up
   to the brace that closes it.
   */
  ghost predicate IsFunction(s: Source, start: nat, end: nat, symbol: seq<byte>) {
    && StartsFunction(s, start)
    && exists body: nat, ps ::
         && body <= |s.bytes| && body <= start + HEADER_LIMIT
         && IsFunctionHead(s, start + 6, body, symbol) && Bodies.IsBody(s, body, end, ps)
  }

  /** An alias's or ifunc's text: the symbol first, and a header of its kind that ends its line within the limit. */
  ghost predicate IsGlobal(s: Source, start: nat, end: nat, symbol: seq<byte>, kind: Kind) {
    && start < end <= |s.bytes| && end <= start + HEADER_LIMIT && s.bytes[start] == '@' as byte
    && AtLineEnd(s, end)
    && exists x :: Names(x, symbol) && IsLineHead(s, start, x, end, Some(kind))
  }

  /** A variable's text: a header within the limit with the keyword `global` or `constant`, and its line. */
  ghost predicate IsVariable(s: Source, start: nat, end: nat) {
    && start < |s.bytes| && s.bytes[start] == '@' as byte
    && exists x, w: nat :: w <= start + HEADER_LIMIT && IsLineHead(s, start, x, w, None) && IsLine(s, w, end)
  }

  ghost predicate IsRecord(s: Source, d: Definition) {
    && d.symbol != [] && (d.kind.DirectAlias? ==> d.kind.target != [])
    && if d.kind.Function? then IsFunction(s, d.start, d.End(), d.symbol)
       else IsGlobal(s, d.start, d.End(), d.symbol, d.kind)
  }

  /** A record covers its tile; a tile without one is a space, a variable, or one unrelated line. */
  ghost predicate IsTile(s: Source, start: nat, end: nat, found: Option<Definition>) {
    && start < end <= |s.bytes| && end <= U64_MAX
    && match found
       case Some(d) => d.start == start && d.End() == end && IsRecord(s, d)
       case None =>
         if IsWhitespace(s.bytes[start]) then end == start + 1
         else if s.bytes[start] == '@' as byte then IsVariable(s, start, end)
         else !StartsFunction(s, start) && IsLine(s, start, end)
  }

  datatype Tiling = Done | Tile(end: nat, found: Option<Definition>, rest: Tiling)

  ghost predicate Tiles(s: Source, start: nat, t: Tiling)
    decreases t
  {
    match t
    case Done => start == |s.bytes|
    case Tile(end, found, rest) => IsTile(s, start, end, found) && Tiles(s, end, rest)
  }

  function Records(t: Tiling): seq<Definition> {
    match t
    case Done => []
    case Tile(_, found, rest) => Found(found) + Records(rest)
  }

  lemma GlobalTile(s: Source, c: Cursor)
    requires Fits(s, c) && c.header.None? && c.offset < |s.bytes| && s.bytes[c.offset] == '@' as byte
    requires GlobalItem(s, c).Ok?
    ensures IsTile(s, c.offset, GlobalItem(s, c).value.1.offset, GlobalItem(s, c).value.0)
  {
    hide LineHead, RequiredToken, SkipLine, Decode, GlobalItem, IsLineHead, WellFormed;
    assert c == At(c.offset);
    var reach := Budgets.GlobalItemBudget(s, c);
    var (head, end) := LineHead(s, c).value;
    LineHeadIs(s, c.offset, head.token.bytes, end.offset, head.kind);
    if head.kind.None? {
      SkipsOneLine(s, end);
    } else {
      SymbolIsFirst(s, c);
      LineHeadEndsLine(s, c);
      NameOfToken(head.token);
      assert Names(head.token.bytes, Decode(head.token).value);
    }
  }

  lemma SymbolIsFirst(s: Source, c: Cursor)
    requires Fits(s, c) && c.offset < |s.bytes| && s.bytes[c.offset] == '@' as byte && LineHead(s, c).Ok?
    ensures RequiredToken(s, c).Ok?
    ensures var token := RequiredToken(s, c).value.0;
            LineHead(s, c).value.0.token == token && StartsWith(token.bytes, '@' as byte)
  {
    hide CompleteToken, Expect, GlobalHead, WellFormed;
  }

  lemma FunctionTile(s: Source, start: nat, c: Cursor)
    requires Fits(s, c) && c.header.None? && c.offset == start + 6 && StartsFunction(s, start)
    requires FunctionItem(s, start, c).Ok?
    ensures IsTile(s, start, FunctionItem(s, start, c).value.1.offset, FunctionItem(s, start, c).value.0)
  {
    hide FunctionHeader, Body, StartsFunction, IsFunctionHead, Bodies.IsBody;
    var reach := Budgets.FunctionItemBudget(s, start, c);
    var (symbol, body) := FunctionHeader(s, c).value;
    FunctionHeadIs(s, c.offset, body.offset, symbol);
    var end := FunctionItem(s, start, c).value.1.offset;
    var scanned := Body(s, body, 1, Plain);
    assert scanned.value.0 == () && scanned.value.1 == At(end) && body == At(body.offset);
    Bodies.BodyAcceptsExactlyBodies(s, body.offset, end);
    var ps :| Bodies.IsBody(s, body.offset, end, ps);
  }

  /** A line that starts no function is skipped as one line, after the bytes that the probe read. */
  lemma SkippedLineTile(s: Source, c: Cursor, c1: Cursor)
    requires Fits(s, c) && Fits(s, c1) && c.offset < |s.bytes| && c.offset <= c1.offset
    requires !IsWhitespace(s.bytes[c.offset]) && s.bytes[c.offset] != '@' as byte && !StartsFunction(s, c.offset)
    requires forall i :: c.offset <= i < c1.offset - 1 ==> s.bytes[i] != '\n' as byte
    ensures '\n' as byte in s.bytes[c.offset..c1.offset] ==> IsTile(s, c.offset, c1.offset, None)
    ensures '\n' as byte !in s.bytes[c.offset..c1.offset] && SkipLine(s, c1).Ok?
            && c.offset < SkipLine(s, c1).value.1.offset ==>
              IsTile(s, c.offset, SkipLine(s, c1).value.1.offset, None)
  {
    hide SkipLine, StartsFunction;
    var prefix := s.bytes[c.offset..c1.offset];
    if '\n' as byte in prefix {
      var k :| 0 <= k < |prefix| && prefix[k] == '\n' as byte;
      assert s.bytes[c.offset + k] == '\n' as byte;
    } else if SkipLine(s, c1).Ok? {
      SkipsOneLine(s, c1);
      assert forall i :: c.offset <= i < c1.offset ==> s.bytes[i] == prefix[i - c.offset];
    }
  }

  lemma LineTile(s: Source, c: Cursor)
    requires Fits(s, c) && c.header.None? && c.offset < |s.bytes|
    requires !IsWhitespace(s.bytes[c.offset]) && s.bytes[c.offset] != '@' as byte && LineItem(s, c).Ok?
    ensures IsTile(s, c.offset, LineItem(s, c).value.1.offset, LineItem(s, c).value.0)
  {
    hide FunctionItem, SkipLine, Prefix, IsTile;
    var length := if s.bytes[c.offset] == 'd' as byte then 6 else 0;
    var c1 := Prefix(s, c, length).value.1;
    var prefix := s.bytes[c.offset..c1.offset];
    PrefixStaysInLine(s, c, length);
    if prefix == Text("define") && (c1.offset == |s.bytes| || IsWhitespace(s.bytes[c1.offset])) {
      assert Occurs(s.bytes, c.offset, Text("define"));
      FunctionTile(s, c.offset, c1);
    } else {
      if StartsFunction(s, c.offset) {
        assert s.bytes[c.offset] == Text("define")[0] == 'd' as byte;
        ProbesKeyword(s, c.offset, c1.offset);
        assert false;
      }
      SkippedLineTile(s, c, c1);
    }
  }

  /** Where a function starts, the keyword probe reads exactly its keyword. */
  lemma ProbesKeyword(s: Source, start: nat, end: nat)
    requires StartsFunction(s, start) && start < end <= start + 6 && end <= |s.bytes|
    requires end == start + 6 || AtLineEnd(s, end)
    ensures s.bytes[start..end] == Text("define")
  {
    var keyword := Text("define");
    assert forall k :: 0 <= k < 6 ==> s.bytes[start + k] == keyword[k];
    assert s.bytes[start + (end - 1 - start)] == keyword[end - 1 - start];
    assert forall k :: 0 <= k < 6 ==> keyword[k] == "define"[k] as int % 256;
  }

  lemma ItemTile(s: Source, c: Cursor)
    requires Fits(s, c) && c.header.None? && c.offset < |s.bytes| && Item(s, c).Ok?
    ensures IsTile(s, c.offset, Item(s, c).value.1.offset, Item(s, c).value.0)
  {
    hide GlobalItem, LineItem;
    var b := s.bytes[c.offset];
    if IsWhitespace(b) {
    } else if b == '@' as byte {
      GlobalTile(s, c);
    } else {
      LineTile(s, c);
    }
  }

  lemma {:induction false} DefinitionsTile(s: Source, c: Cursor) returns (t: Tiling)
    requires Fits(s, c) && c.header.None? && Definitions(s, c).Ok?
    ensures Tiles(s, c.offset, t) && Records(t) == Definitions(s, c).value
    decreases |s.bytes| - c.offset
  {
    hide Item, IsTile;
    if c.offset == |s.bytes| {
      return Done;
    }
    ItemTile(s, c);
    var (found, c1) := Item(s, c).value;
    var rest := DefinitionsTile(s, c1);
    t := Tile(c1.offset, found, rest);
  }

  /** A successful scan tiles its whole input, and its definitions are the tiles that are records. */
  lemma IndexTilesInput(s: Source) returns (t: Tiling)
    requires Index(s).Ok?
    ensures Tiles(s, 0, t) && Records(t) == Index(s).value
  {
    t := DefinitionsTile(s, Cursor(0, None));
  }

  // ---- The only tiling ----

  lemma RecordIsDetermined(s: Source, d: Definition, e: Definition)
    requires IsRecord(s, d) && IsRecord(s, e) && d.start == e.start && d.start + 6 <= |s.bytes|
    requires d.kind.Function? && e.kind.Function? && d.End() <= U64_MAX && e.End() <= U64_MAX
    ensures d == e
  {
    hide FunctionHeader, Body, StartsFunction, IsFunctionHead, Bodies.IsBody;
    var start := d.start;
    var body: nat, ps :|
      && body <= |s.bytes| && body <= start + HEADER_LIMIT
      && IsFunctionHead(s, start + 6, body, d.symbol) && Bodies.IsBody(s, body, d.End(), ps);
    var other: nat, qs :|
      other <= |s.bytes| && IsFunctionHead(s, start + 6, other, e.symbol) && Bodies.IsBody(s, other, e.End(), qs);
    FunctionHeadIs(s, start + 6, body, d.symbol);
    FunctionHeadIs(s, start + 6, other, e.symbol);
    BodySpans(s, body, d.End(), ps);
    BodySpans(s, body, e.End(), qs);
  }

  lemma BodySpans(s: Source, body: nat, end: nat, ps: Bodies.Pieces)
    requires Bodies.IsBody(s, body, end, ps) && end <= U64_MAX
    ensures body <= end && Body(s, At(body), 1, Plain) == Ok(((), At(end)))
  {
    Bodies.BodyAcceptsExactlyBodies(s, body, end);
  }

  /** At `@` the header decides: a record of its kind and symbol, or a variable. */
  lemma LineIsDetermined(s: Source, start: nat, end: nat, found: Option<Definition>)
    requires IsTile(s, start, end, found) && s.bytes[start] == '@' as byte
    ensures Fits(s, At(start)) && LineHead(s, At(start)).Ok?
    ensures var (head, stop) := LineHead(s, At(start)).value;
            && (found.Some? ==>
                  found.value == Definition(found.value.symbol, start, end - start, found.value.kind)
                  && Decode(head.token) == Ok(found.value.symbol) && head.kind == Some(found.value.kind)
                  && stop == At(end))
            && (found.None? ==> head.kind == None && stop == At(stop.offset) && IsLine(s, stop.offset, end))
            && stop.offset <= start + HEADER_LIMIT
  {
    hide LineHead, RequiredToken, Decode, IsLineHead, WellFormed, Bodies.IsBody, IsFunctionHead, Occurs;
    if StartsFunction(s, start) {
      StartsWithKeyword(s, start);
    }
    if found.Some? {
      var d := found.value;
      var x :| Names(x, d.symbol) && IsLineHead(s, start, x, end, Some(d.kind));
      LineHeadIs(s, start, x, end, Some(d.kind));
      HeadIsWellFormed(s, At(start));
      NameOfToken(LineHead(s, At(start)).value.0.token);
    } else {
      var x, w: nat :| w <= start + HEADER_LIMIT && IsLineHead(s, start, x, w, None) && IsLine(s, w, end);
      LineHeadIs(s, start, x, w, None);
      HeadIsWellFormed(s, At(start));
    }
  }

  /** A tile's end and its record are determined by where it starts. */
  lemma TileIsDetermined(s: Source, start: nat, end: nat, found: Option<Definition>, other: nat,
                         also: Option<Definition>)
    requires IsTile(s, start, end, found) && IsTile(s, start, other, also)
    ensures end == other && found == also
  {
    hide IsLine, IsLineHead, IsFunctionHead, Bodies.IsBody, LineHead, Decode, Names, Occurs;
    var b := s.bytes[start];
    if b == '@' as byte {
      LineIsDetermined(s, start, end, found);
      LineIsDetermined(s, start, other, also);
      if found.None? {
        LineEndsOnce(s, LineHead(s, At(start)).value.1.offset, end, other);
      }
    } else if StartsFunction(s, start) {
      StartsWithKeyword(s, start);
      RecordIsDetermined(s, found.value, also.value);
    } else if !IsWhitespace(b) {
      LineEndsOnce(s, start, end, other);
    }
  }

  lemma StartsWithKeyword(s: Source, start: nat)
    requires StartsFunction(s, start)
    ensures start + 6 <= |s.bytes| && s.bytes[start] == 'd' as byte
  {
    assert s.bytes[start + 0] == Text("define")[0] == 'd' as byte;
  }

  lemma {:induction false} TilingIsUnique(s: Source, start: nat, t: Tiling, u: Tiling)
    requires Tiles(s, start, t) && Tiles(s, start, u)
    ensures t == u
    decreases t
  {
    hide IsTile;
    match (t, u) {
      case (Tile(end, found, rest), Tile(other, also, later)) =>
        TileIsDetermined(s, start, end, found, other, also);
        TilingIsUnique(s, end, rest, later);
      case (Done, Tile(other, also, _)) => TileStartsInside(s, start, other, also);
      case (Tile(end, found, _), Done) => TileStartsInside(s, start, end, found);
      case (Done, Done) =>
    }
  }

  lemma TileStartsInside(s: Source, start: nat, end: nat, found: Option<Definition>)
    requires IsTile(s, start, end, found)
    ensures start < |s.bytes|
  {
  }

  /** The index is the records of the input's only tiling: nothing is dropped, added or mistaken. */
  lemma IndexIsTheTiling(s: Source, t: Tiling)
    requires Index(s).Ok? && Tiles(s, 0, t)
    ensures Records(t) == Index(s).value
  {
    hide Index;
    var u := IndexTilesInput(s);
    TilingIsUnique(s, 0, t, u);
  }

  // ---- Every tiling is read ----

  lemma TileSpans(s: Source, start: nat, end: nat, found: Option<Definition>)
    requires IsTile(s, start, end, found)
    ensures start < end <= |s.bytes| && end <= U64_MAX
    ensures found.Some? ==>
              found.value.symbol != [] && (found.value.kind.DirectAlias? ==> found.value.kind.target != [])
  {
    hide IsFunction, IsGlobal, IsVariable, IsLine, StartsFunction;
  }

  lemma GlobalIsRead(s: Source, start: nat, end: nat, found: Option<Definition>)
    requires IsTile(s, start, end, found) && s.bytes[start] == '@' as byte
    ensures Fits(s, At(start)) && GlobalItem(s, At(start)) == Ok((found, At(end)))
  {
    hide LineHead, SkipLine, Decode, GlobalItem, IsLine, IsTile, WellFormed;
    TileSpans(s, start, end, found);
    LineIsDetermined(s, start, end, found);
    var reach := Budgets.GlobalItemBudget(s, At(start));
    if found.None? {
      LineIsSkipped(s, LineHead(s, At(start)).value.1.offset, end);
    }
  }

  lemma FunctionIsRead(s: Source, d: Definition)
    requires IsRecord(s, d) && d.kind.Function? && d.End() <= U64_MAX && d.start + 6 <= |s.bytes|
    ensures Fits(s, At(d.start + 6)) && d.start + 6 < |s.bytes|
    ensures FunctionItem(s, d.start, At(d.start + 6)) == Ok((Some(d), At(d.End())))
  {
    hide FunctionHeader, Body, StartsFunction, HasName, ParensAre, Opens, Bodies.IsBody, FunctionItem;
    var start := d.start;
    var body: nat, ps :|
      && body <= |s.bytes| && body <= start + HEADER_LIMIT
      && IsFunctionHead(s, start + 6, body, d.symbol) && Bodies.IsBody(s, body, d.End(), ps);
    FunctionHeadIs(s, start + 6, body, d.symbol);
    BodySpans(s, body, d.End(), ps);
    var reach := Budgets.FunctionItemBudget(s, start, At(start + 6));
  }

  /** The probe reads as many bytes as it may, if none of them ends the line. */
  lemma {:induction false} ProbesAll(s: Source, i: nat, length: nat)
    requires i + length <= |s.bytes| && i + length <= U64_MAX
    requires forall k :: i <= k < i + length ==> s.bytes[k] != '\n' as byte
    ensures Ends(Prefix(s, At(i), length), i + length)
    decreases length
  {
    if length > 0 {
      ProbesAll(s, i + 1, length - 1);
    }
  }

  /** The probe stays in its line, and leaves the rest of it. */
  lemma {:induction false} ProbesLine(s: Source, i: nat, length: nat, end: nat)
    requires IsLine(s, i, end) && end <= U64_MAX
    ensures Prefix(s, At(i), length).Ok?
    ensures var c := Prefix(s, At(i), length).value.1;
            && c == At(c.offset) && i <= c.offset <= end
            && (IsLine(s, c.offset, end) || (i < c.offset == end && s.bytes[end - 1] == '\n' as byte))
    decreases length
  {
    if length > 0 && i < end && s.bytes[i] != '\n' as byte {
      ProbesLine(s, i + 1, length - 1, end);
    }
  }

  /** A newline is the last byte of a line. */
  lemma NewlineIsLast(s: Source, i: nat, j: nat, end: nat)
    requires IsLine(s, i, end) && i <= j <= end
    ensures '\n' as byte in s.bytes[i..j] <==> i < j == end && s.bytes[end - 1] == '\n' as byte
  {
    var prefix := s.bytes[i..j];
    if k :| 0 <= k < |prefix| && prefix[k] == '\n' as byte {
      assert s.bytes[i + k] == '\n' as byte;
    }
    if i < j == end && s.bytes[end - 1] == '\n' as byte {
      assert prefix[end - 1 - i] == '\n' as byte;
    }
  }

  lemma LineIsRead(s: Source, start: nat, end: nat)
    requires IsTile(s, start, end, None) && !IsWhitespace(s.bytes[start]) && s.bytes[start] != '@' as byte
    ensures Fits(s, At(start)) && LineItem(s, At(start)) == Ok((None, At(end)))
  {
    hide FunctionItem, SkipLine, Prefix, IsLine;
    var length := if s.bytes[start] == 'd' as byte then 6 else 0;
    ProbesLine(s, start, length, end);
    var j := Prefix(s, At(start), length).value.1.offset;
    NewlineIsLast(s, start, j, end);
    var prefix := s.bytes[start..j];
    if prefix == Text("define") {
      assert forall k :: 0 <= k < 6 ==> s.bytes[start + k] == prefix[k];
      assert Occurs(s.bytes, start, Text("define"));
    }
    if '\n' as byte !in prefix {
      LineIsSkipped(s, j, end);
    }
  }

  lemma KeywordStands(s: Source, start: nat)
    requires StartsFunction(s, start)
    ensures start + 6 <= |s.bytes| && s.bytes[start..start + 6] == Text("define")
    ensures forall k :: start <= k < start + 6 ==> s.bytes[k] != '\n' as byte
    ensures s.bytes[start] == 'd' as byte
  {
    var keyword := Text("define");
    assert "define" == ['d', 'e', 'f', 'i', 'n', 'e'];
    assert forall k :: 0 <= k < 6 ==> s.bytes[start + k] == keyword[k] != '\n' as byte;
    assert s.bytes[start + 0] == keyword[0];
    assert forall k :: start <= k < start + 6 ==> s.bytes[k] == keyword[k - start];
  }

  lemma FunctionLineIsRead(s: Source, d: Definition)
    requires IsTile(s, d.start, d.End(), Some(d)) && d.kind.Function?
    ensures Fits(s, At(d.start)) && LineItem(s, At(d.start)) == Ok((Some(d), At(d.End())))
    ensures s.bytes[d.start] == 'd' as byte
  {
    hide FunctionItem, Prefix, IsFunctionHead, Bodies.IsBody, Occurs;
    var start := d.start;
    KeywordStands(s, start);
    FunctionIsRead(s, d);
    ProbesAll(s, start, 6);
  }

  /** At every tile the scan takes exactly that tile. */
  lemma TileIsRead(s: Source, start: nat, end: nat, found: Option<Definition>)
    requires IsTile(s, start, end, found)
    ensures Fits(s, At(start)) && Item(s, At(start)) == Ok((found, At(end)))
  {
    hide GlobalItem, LineItem, IsLine, IsFunction, IsGlobal, IsVariable;
    if s.bytes[start] == '@' as byte {
      GlobalIsRead(s, start, end, found);
    } else if found.Some? {
      KindAtKeyword(s, found.value);
      FunctionLineIsRead(s, found.value);
    } else if !IsWhitespace(s.bytes[start]) {
      LineIsRead(s, start, end);
    }
  }

  lemma KindAtKeyword(s: Source, d: Definition)
    requires IsRecord(s, d) && d.start < |s.bytes| && s.bytes[d.start] != '@' as byte
    ensures d.kind.Function?
  {
  }

  lemma {:induction false} TilingIsRead(s: Source, start: nat, t: Tiling)
    requires Tiles(s, start, t) && s.ending.Eof? && start <= U64_MAX
    ensures Fits(s, At(start)) && Definitions(s, At(start)) == Ok(Records(t))
    decreases t
  {
    hide Item, IsTile;
    match t
    case Done =>
    case Tile(end, found, rest) =>
      TileIsRead(s, start, end, found);
      TilingIsRead(s, end, rest);
      TileStartsInside(s, start, end, found);
  }

  /**
   An input is indexed exactly if it ends without a failure and can be cut into tiles. The index is
   then the records of these tiles; every other input is an error.
   */
  lemma IndexIsExactly(s: Source, ds: seq<Definition>)
    ensures Index(s) == Ok(ds) <==> s.ending.Eof? && exists t :: Tiles(s, 0, t) && Records(t) == ds
  {
    hide Item, Tiles, Definitions;
    if Index(s) == Ok(ds) {
      var t := IndexTilesInput(s);
      EndIsReached(s, At(0));
    }
    if s.ending.Eof? {
      forall t | Tiles(s, 0, t) ensures Index(s) == Ok(Records(t)) {
        TilingIsRead(s, 0, t);
      }
    }
  }

  /** A successful scan has seen the end of the input. */
  lemma {:induction false} EndIsReached(s: Source, c: Cursor)
    requires Fits(s, c) && c.header.None? && Definitions(s, c).Ok?
    ensures s.ending.Eof?
    decreases |s.bytes| - c.offset
  {
    hide Item;
    if c.offset < |s.bytes| {
      EndIsReached(s, Item(s, c).value.1);
    }
  }

  // ---- Where a scan fails ----

  /** The tiles cover the input from `start` up to `stop`. */
  ghost predicate TilesTo(s: Source, start: nat, t: Tiling, stop: nat)
    decreases t
  {
    match t
    case Done => start == stop
    case Tile(end, found, rest) => IsTile(s, start, end, found) && TilesTo(s, end, rest, stop)
  }

  ghost predicate NothingStands(s: Source, start: nat) {
    start <= |s.bytes| && forall end, found :: !IsTile(s, start, end, found)
  }

  /** What an error says of the place where nothing stands. */
  ghost predicate Blames(s: Source, start: nat, e: Error) {
    match e
    case Malformed(offset) => start <= offset <= |s.bytes|
    case OverBudget(offset) => offset == start + HEADER_LIMIT
    case OffsetOverflow(offset) => offset == U64_MAX < |s.bytes|
    case ReaderFailed => s.ending.Broken?
  }

  lemma FailureStands(s: Source, c: Cursor)
    requires Fits(s, c) && c.header.None? && c.offset < |s.bytes| && Item(s, c).Err?
    ensures NothingStands(s, c.offset) && Blames(s, c.offset, Item(s, c).error)
  {
    hide Item, IsTile;
    assert c == At(c.offset);
    forall end, found ensures !IsTile(s, c.offset, end, found) {
      if IsTile(s, c.offset, end, found) {
        TileIsRead(s, c.offset, end, found);
      }
    }
  }

  lemma {:induction false} DefinitionsFail(s: Source, c: Cursor) returns (t: Tiling, stop: nat)
    requires Fits(s, c) && c.header.None? && Definitions(s, c).Err?
    ensures TilesTo(s, c.offset, t, stop) && NothingStands(s, stop) && Blames(s, stop, Definitions(s, c).error)
    decreases |s.bytes| - c.offset
  {
    hide Item, IsTile, NothingStands, Blames;
    if c.offset == |s.bytes| {
      NothingAtEnd(s);
      return Done, c.offset;
    }
    if Item(s, c).Err? {
      FailureStands(s, c);
      return Done, c.offset;
    }
    ItemTile(s, c);
    var (found, c1) := Item(s, c).value;
    var rest;
    rest, stop := DefinitionsFail(s, c1);
    t := Tile(c1.offset, found, rest);
  }

  lemma NothingAtEnd(s: Source)
    ensures NothingStands(s, |s.bytes|) && (s.ending.Broken? ==> Blames(s, |s.bytes|, ReaderFailed))
  {
  }

  /**
   A failing scan has tiled the input up to a place where nothing stands. Its error lies from there on,
   or names the header that is too long there, or the reader's own failure.
   */
  lemma IndexFailsAt(s: Source) returns (t: Tiling, stop: nat)
    requires Index(s).Err?
    ensures TilesTo(s, 0, t, stop) && NothingStands(s, stop) && Blames(s, stop, Index(s).error)
  {
    hide Item, IsTile, Definitions, NothingStands, Blames, TilesTo;
    t, stop := DefinitionsFail(s, At(0));
  }

  // ---- Ranges ----

  /** What each definition's range covers. */
  ghost predicate Covers(s: Source, d: Definition) {
    d.start < d.End() <= |s.bytes| && IsRecord(s, d)
  }

  /** Covering ranges in order, each starting where the one before it has ended or later. */
  ghost predicate Ordered(s: Source, start: nat, ds: seq<Definition>) {
    && (forall i :: 0 <= i < |ds| ==> start <= ds[i].start && Covers(s, ds[i]))
    && (forall i, j :: 0 <= i < j < |ds| ==> ds[i].End() <= ds[j].start)
  }

  lemma OrderedFrom(s: Source, start: nat, found: seq<Definition>, later: seq<Definition>, end: nat)
    requires |found| <= 1 && start <= end && Ordered(s, end, later)
    requires forall i :: 0 <= i < |found| ==> start <= found[i].start && found[i].End() <= end && Covers(s, found[i])
    ensures Ordered(s, start, found + later)
  {
    hide Covers;
    var all := found + later;
    forall i | 0 <= i < |all| ensures start <= all[i].start && Covers(s, all[i]) {
      if i >= |found| {
        assert all[i] == later[i - |found|];
      }
    }
    forall i, j | 0 <= i < j < |all| ensures all[i].End() <= all[j].start {
      assert all[j] == later[j - |found|];
      if i >= |found| {
        assert all[i] == later[i - |found|];
      }
    }
  }

  lemma {:induction false} TilesAreOrdered(s: Source, start: nat, t: Tiling)
    requires Tiles(s, start, t)
    ensures Ordered(s, start, Records(t))
    decreases t
  {
    hide IsRecord, Ordered, IsVariable, IsLine, StartsFunction;
    match t
    case Done => assert Ordered(s, start, []) by { EmptyIsOrdered(s, start); }
    case Tile(end, found, rest) =>
      TilesAreOrdered(s, end, rest);
      OrderedFrom(s, start, Found(found), Records(rest), end);
  }

  lemma EmptyIsOrdered(s: Source, start: nat)
    ensures Ordered(s, start, [])
  {
  }

  /**
   Every successful scan returns nonempty, strictly increasing, pairwise disjoint ranges inside the
   input, each covering exactly a function, or an alias or ifunc through the end of its line.
   */
  lemma IndexRanges(s: Source)
    requires Index(s).Ok?
    ensures Ordered(s, 0, Index(s).value)
  {
    var t := IndexTilesInput(s);
    TilesAreOrdered(s, 0, t);
  }
}
