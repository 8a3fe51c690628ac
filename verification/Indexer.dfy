/**
 The indexer over the buffered stream. Every method is proved equal to its function in Grammar, and
 `Index` therefore returns an answer that depends only on the bytes, never on how they are delivered.
 */
module Indexer {
  import opened Base
  import opened IndexRecords
  import opened Lexis
  import opened Streams
  import Symbols
  import Grammar
  import opened G = Grammar

  method ConsumeOpenedGroup(s: Stream, token: Token) returns (r: Result<(), Error>)
    requires s.Valid() && s.InHeader()
    modifies s, s.reader, s.chunk
    ensures s.Valid()
    ensures Agrees(r, s.At(), Grammar.OpenedGroup(s.source, old(s.At()), token))
  {
    if |token.bytes| != 1 {
      return Ok(());
    }
    if IsOpening(token.bytes[0]) {
      r := s.ConsumeGroup(token.bytes[0]);
    } else {
      r := if IsClosing(token.bytes[0]) then Err(Malformed(token.offset)) else Ok(());
    }
  }

  method ConsumeParenGroup(s: Stream) returns (r: Result<(), Error>)
    requires s.Valid() && s.InHeader()
    modifies s, s.reader, s.chunk
    ensures s.Valid()
    ensures Agrees(r, s.At(), Grammar.ParenGroup(s.source, old(s.At())))
  {
    var _ :- s.Expect(Text("("));
    r := s.ConsumeGroup('(' as byte);
  }

  method ConsumeConstant(s: Stream, token: Token) returns (r: Result<(), Error>)
    requires s.Valid() && s.InHeader() && WellFormed(token.bytes)
    modifies s, s.reader, s.chunk
    ensures s.Valid()
    ensures Agrees(r, s.At(), Grammar.Constant(s.source, old(s.At()), token))
  {
    hide Lexis.Locates;
    var x := token.bytes;
    if |x| == 1 && IsOpening(x[0]) {
      r := s.ConsumeGroup(x[0]);
      return;
    }
    if StartsWith(x, '@' as byte) {
      var _ :- Symbols.DecodeSymbol(token);
      return Ok(());
    }
    if x == Text("dso_local_equivalent") || x == Text("no_cfi") {
      var target :- s.RequiredToken();
      var _ :- Symbols.DecodeSymbol(target);
      return Ok(());
    }
    if x == Text("c") {
      var text :- s.RequiredToken();
      return if StartsWith(text.bytes, '"' as byte) then Ok(()) else Err(Malformed(text.offset));
    }
    if IsSimpleConstant(x) {
      return Ok(());
    }
    if !IsConstantOpcode(x) {
      return Err(Malformed(token.offset));
    }
    r := ConsumeConstantOperands(s, x == Text("getelementptr"));
  }

  method ConsumeConstantOperands(s: Stream, flags: bool) returns (r: Result<(), Error>)
    requires s.Valid() && s.InHeader()
    modifies s, s.reader, s.chunk
    ensures s.Valid()
    ensures Agrees(r, s.At(), Grammar.ConstantOperands(s.source, old(s.At()), flags))
  {
    var next :- s.RequiredToken();
    if flags {
      next :- SkipPointerFlags(s, next);
    }
    if next.bytes != Text("(") {
      return Err(Malformed(next.offset));
    }
    r := s.ConsumeGroup('(' as byte);
  }

  method SkipPointerFlags(s: Stream, first: Token) returns (r: Result<Token, Error>)
    requires s.Valid() && s.InHeader()
    modifies s, s.reader, s.chunk
    ensures s.Valid()
    ensures Agrees(r, s.At(), Grammar.SkipFlags(s.source, old(s.At()), first))
  {
    var next := first;
    while IsPointerFlag(next.bytes)
      invariant s.Valid() && s.InHeader()
      invariant Grammar.SkipFlags(s.source, old(s.At()), first) == Grammar.SkipFlags(s.source, s.At(), next)
      decreases |s.source.bytes| - s.offset
    {
      next :- s.RequiredToken();
    }
    r := Ok(next);
  }

  method ConsumeTypedConstant(s: Stream) returns (r: Result<(), Error>)
    requires s.Valid() && s.InHeader()
    modifies s, s.reader, s.chunk
    ensures s.Valid()
    ensures Agrees(r, s.At(), Grammar.TypedConstant(s.source, old(s.At())))
  {
    var ty :- s.RequiredToken();
    var _ :- ConsumeOpenedGroup(s, ty);
    var value :- s.RequiredToken();
    if ty.bytes == Text("ptr") && value.bytes == Text("addrspace") {
      var _ :- ConsumeParenGroup(s);
      value :- s.RequiredToken();
    }
    r := ConsumeConstant(s, value);
  }

  method ReadFunctionName(s: Stream) returns (r: Result<seq<byte>, Error>)
    requires s.Valid() && s.InHeader()
    modifies s, s.reader, s.chunk
    ensures s.Valid()
    ensures Agrees(r, s.At(), Grammar.FunctionName(s.source, old(s.At())))
  {
    while true
      invariant s.Valid() && s.InHeader()
      invariant Grammar.FunctionName(s.source, old(s.At())) == Grammar.FunctionName(s.source, s.At())
      decreases |s.source.bytes| - s.offset
    {
      var token :- s.RequiredToken();
      if StartsWith(token.bytes, '@' as byte) {
        r := Symbols.DecodeSymbol(token);
        return;
      }
      if EndsHeader(token.bytes) {
        return Err(Malformed(token.offset));
      }
      var _ :- ConsumeOpenedGroup(s, token);
    }
  }

  method ReadFunctionSuffix(s: Stream) returns (r: Result<(), Error>)
    requires s.Valid() && s.InHeader()
    modifies s, s.reader, s.chunk
    ensures s.Valid()
    ensures Agrees(r, s.At(), Grammar.FunctionSuffix(s.source, old(s.At())))
  {
    hide Grammar.TypedConstant, Grammar.OpenedGroup, Lexis.RequiredToken, Lexis.Locates, EndsHeader;
    while true
      invariant s.Valid() && s.InHeader()
      invariant Grammar.FunctionSuffix(s.source, old(s.At())) == Grammar.FunctionSuffix(s.source, s.At())
      decreases |s.source.bytes| - s.offset
    {
      var token :- s.RequiredToken();
      var x := token.bytes;
      if x == Text("{") {
        return Ok(());
      }
      if x == Text("prefix") || x == Text("prologue") || x == Text("personality") {
        var _ :- ConsumeTypedConstant(s);
      } else if x == Text("!") {
        var metadata :- s.RequiredToken();
        var _ :- ConsumeOpenedGroup(s, metadata);
      } else if EndsHeader(x) {
        return Err(Malformed(token.offset));
      } else {
        var _ :- ConsumeOpenedGroup(s, token);
      }
    }
  }

  /** Reads a function's name and consumes its header through the opening body brace. */
  method ReadFunction(s: Stream) returns (r: Result<seq<byte>, Error>)
    requires s.Valid() && s.InHeader()
    modifies s, s.reader, s.chunk
    ensures s.Valid()
    ensures Agrees(r, s.At(), Grammar.FunctionHeader(s.source, old(s.At())))
  {
    var symbol :- ReadFunctionName(s);
    var _ :- ConsumeParenGroup(s);
    var _ :- ReadFunctionSuffix(s);
    r := Ok(symbol);
  }

  method ConsumeAliasType(s: Stream) returns (r: Result<(), Error>)
    requires s.Valid() && s.InHeader()
    modifies s, s.reader, s.chunk
    ensures s.Valid()
    ensures Agrees(r, s.At(), Grammar.AliasType(s.source, old(s.At())))
  {
    while true
      invariant s.Valid() && s.InHeader()
      invariant Grammar.AliasType(s.source, old(s.At())) == Grammar.AliasType(s.source, s.At())
      decreases |s.source.bytes| - s.offset
    {
      var token :- s.RequiredToken();
      var x := token.bytes;
      if x == Text(",") {
        return Ok(());
      }
      if x == Text("=") || x == Text("define") || x == Text("declare") || StartsWith(x, '@' as byte) {
        return Err(Malformed(token.offset));
      }
      var _ :- ConsumeOpenedGroup(s, token);
    }
  }

  method ReadTypedOperand(s: Stream, operand: Token) returns (r: Result<Option<seq<byte>>, Error>)
    requires s.Valid() && s.InHeader() && WellFormed(operand.bytes)
    modifies s, s.reader, s.chunk
    ensures s.Valid()
    ensures Agrees(r, s.At(), Grammar.TypedOperand(s.source, old(s.At()), operand))
  {
    if StartsWith(operand.bytes, '@' as byte) {
      var target :- Symbols.DecodeSymbol(operand);
      return Ok(Some(target));
    }
    var _ :- ConsumeConstant(s, operand);
    r := Ok(None);
  }

  method ReadAliasOperand(s: Stream) returns (r: Result<Option<seq<byte>>, Error>)
    requires s.Valid() && s.InHeader()
    modifies s, s.reader, s.chunk
    ensures s.Valid()
    ensures Agrees(r, s.At(), Grammar.AliasOperand(s.source, old(s.At())))
  {
    var operand :- s.RequiredToken();
    if operand.bytes == Text("ptr") {
      operand :- s.RequiredToken();
      if operand.bytes == Text("addrspace") {
        var _ :- ConsumeParenGroup(s);
        operand :- s.RequiredToken();
      }
      r := ReadTypedOperand(s, operand);
      return;
    }
    if StartsWith(operand.bytes, '@' as byte) {
      return Err(Malformed(operand.offset));
    }
    var _ :- ConsumeConstant(s, operand);
    r := Ok(None);
  }

  method ConsumeAliasSuffix(s: Stream) returns (r: Result<(), Error>)
    requires s.Valid() && s.InHeader()
    modifies s, s.reader, s.chunk
    ensures s.Valid()
    ensures Agrees(r, s.At(), Grammar.AliasSuffix(s.source, old(s.At())))
  {
    while true
      invariant s.Valid() && s.InHeader()
      invariant Grammar.AliasSuffix(s.source, old(s.At())) == Grammar.AliasSuffix(s.source, s.At())
      decreases |s.source.bytes| - s.offset
    {
      var token :- s.ReadToken(true);
      if token.None? {
        return Ok(());
      }
      if token.value.bytes != Text(",") {
        return Err(Malformed(token.value.offset));
      }
      var suffix :- s.RequiredToken();
      if StartsWith(suffix.bytes, '!' as byte) {
        var metadata :- s.RequiredToken();
        var _ :- ConsumeOpenedGroup(s, metadata);
      } else {
        if suffix.bytes != Text("partition") {
          return Err(Malformed(suffix.offset));
        }
        var name :- s.RequiredToken();
        if !StartsWith(name.bytes, '"' as byte) {
          return Err(Malformed(name.offset));
        }
      }
    }
  }

  /** Reads an alias type and operand, keeping only a direct global target. */
  method ReadAliasTarget(s: Stream) returns (r: Result<Option<seq<byte>>, Error>)
    requires s.Valid() && s.InHeader()
    modifies s, s.reader, s.chunk
    ensures s.Valid()
    ensures Agrees(r, s.At(), Grammar.AliasTarget(s.source, old(s.At())))
  {
    var first :- s.RequiredToken();
    if first.bytes == Text(",") {
      return Err(Malformed(first.offset));
    }
    var _ :- ConsumeOpenedGroup(s, first);
    var _ :- ConsumeAliasType(s);
    var target :- ReadAliasOperand(s);
    var _ :- ConsumeAliasSuffix(s);
    r := Ok(target);
  }

  method ReadGlobalKind(s: Stream) returns (r: Result<Option<Kind>, Error>)
    requires s.Valid() && s.InHeader()
    modifies s, s.reader, s.chunk
    ensures s.Valid()
    ensures Agrees(r, s.At(), Grammar.GlobalKind(s.source, old(s.At())))
  {
    hide Lexis.Locates;
    while true
      invariant s.Valid() && s.InHeader()
      invariant Grammar.GlobalKind(s.source, old(s.At())) == Grammar.GlobalKind(s.source, s.At())
      decreases |s.source.bytes| - s.offset
    {
      var token :- s.RequiredToken();
      var x := token.bytes;
      if x == Text("global") || x == Text("constant") {
        s.EndHeader();
        var _ :- s.SkipLine();
        return Ok(None);
      }
      if x == Text("alias") {
        var target :- ReadAliasTarget(s);
        return Ok(Some(if target.Some? then DirectAlias(target.value) else ExpressionAlias));
      }
      if x == Text("ifunc") {
        var _ :- ReadAliasTarget(s);
        return Ok(Some(Ifunc));
      }
      if x in MODIFIERS {
      } else if x == Text("addrspace") {
        var _ :- ConsumeParenGroup(s);
      } else if x == Text("(") {
        var _ :- s.ConsumeGroup('(' as byte);
      } else {
        return Err(Malformed(token.offset));
      }
    }
  }

  method ReadGlobalDefinition(s: Stream) returns (r: Result<Option<Definition>, Error>)
    requires s.Valid() && s.headerStart.None?
    modifies s, s.reader, s.chunk
    ensures s.Valid()
    ensures Agrees(r, s.At(), Grammar.GlobalItem(s.source, old(s.At())))
  {
    var start := s.offset;
    s.BeginHeader(start);
    var token :- s.RequiredToken();
    var _ :- s.Expect(Text("="));
    var kind :- ReadGlobalKind(s);
    if kind.None? {
      s.EndHeader();
      return Ok(None);
    }
    var symbol :- Symbols.DecodeSymbol(token);
    var definition :- MakeDefinition(symbol, start, s.offset, kind.value);
    s.EndHeader();
    r := Ok(Some(definition));
  }

  lemma TakesOneMore(x: seq<byte>, from: nat, end: nat)
    requires from <= end < |x|
    ensures x[from..end] + [x[end]] == x[from..end + 1]
  {
  }

  /** Reads at most `length` bytes, and none past a newline. */
  method ReadKeywordPrefix(s: Stream, length: nat) returns (r: Result<seq<byte>, Error>)
    requires s.Valid() && s.headerStart.None?
    modifies s, s.reader, s.chunk
    ensures s.Valid()
    ensures var step := Grammar.Prefix(s.source, old(s.At()), length);
            match step
            case Ok((_, next)) =>
              && old(s.offset) <= next.offset && s.At() == next
              && r == Ok(s.source.bytes[old(s.offset)..next.offset])
            case Err(error) => r == Err(error)
  {
    hide Lexis.Locates;
    ghost var start := s.offset;
    var prefix: seq<byte> := [];
    while |prefix| < length
      invariant s.Valid() && s.headerStart.None?
      invariant start + |prefix| == s.offset && |prefix| <= length
      invariant prefix == s.source.bytes[start..s.offset]
      invariant Grammar.Prefix(s.source, old(s.At()), length) == Grammar.Prefix(s.source, s.At(), length - |prefix|)
    {
      var next :- s.Take();
      if next.None? {
        return Ok(prefix);
      }
      TakesOneMore(s.source.bytes, start, s.offset - 1);
      prefix := prefix + [next.value];
      if next.value == '\n' as byte {
        return Ok(prefix);
      }
    }
    r := Ok(prefix);
  }

  method ReadLine(s: Stream, first: byte) returns (r: Result<Option<Definition>, Error>)
    requires s.Valid() && s.headerStart.None?
    requires s.offset < |s.source.bytes| && first == s.source.bytes[s.offset]
    modifies s, s.reader, s.chunk
    ensures s.Valid()
    ensures Agrees(r, s.At(), Grammar.LineItem(s.source, old(s.At())))
  {
    hide Lexis.Locates, Grammar.FunctionHeader, Lexis.SkipLine, Lexis.Body;
    var start := s.offset;
    var prefix: seq<byte> := [];
    if first == 'd' as byte {
      prefix :- ReadKeywordPrefix(s, 6);
    }
    var isFunction := prefix == Text("define");
    if isFunction {
      var next :- s.Peek();
      isFunction := next.None? || IsWhitespace(next.value);
    }
    if isFunction {
      s.BeginHeader(start);
      var symbol :- ReadFunction(s);
      s.EndHeader();
      var _ :- s.SkipBody();
      var definition :- MakeDefinition(symbol, start, s.offset, Function);
      return Ok(Some(definition));
    }
    if '\n' as byte !in prefix {
      var _ :- s.SkipLine();
    }
    r := Ok(None);
  }

  /** One turn of the scan's loop, at a byte that has been peeked. */
  method ReadItem(s: Stream, first: byte) returns (r: Result<Option<Definition>, Error>)
    requires s.Valid() && s.headerStart.None?
    requires s.offset < |s.source.bytes| && first == s.source.bytes[s.offset]
    modifies s, s.reader, s.chunk
    ensures s.Valid()
    ensures Agrees(r, s.At(), Grammar.Item(s.source, old(s.At())))
  {
    if IsWhitespace(first) {
      var _ :- s.Take();
      return Ok(None);
    }
    if first == '@' as byte {
      r := ReadGlobalDefinition(s);
    } else {
      r := ReadLine(s, first);
    }
  }

  /** Definitions found so far, followed by those of the rest. */
  ghost function Prepend(found: seq<Definition>, rest: Result<seq<Definition>, Error>): Result<seq<Definition>, Error> {
    if rest.Ok? then Ok(found + rest.value) else rest
  }

  lemma PrependItem(found: seq<Definition>, item: seq<Definition>, rest: Result<seq<Definition>, Error>)
    ensures Prepend(found, Prepend(item, rest)) == Prepend(found + item, rest)
    ensures Prepend([], rest) == rest
    ensures Prepend(found, Ok([])) == Ok(found)
  {
    assert found + [] == found;
    if rest.Ok? {
      assert found + (item + rest.value) == (found + item) + rest.value;
      assert [] + rest.value == rest.value;
    }
  }

  method Scan(s: Stream) returns (r: Result<seq<Definition>, Error>)
    requires s.Valid() && s.headerStart.None?
    modifies s, s.reader, s.chunk
    ensures s.Valid()
    ensures r == Grammar.Definitions(s.source, old(s.At()))
  {
    var definitions: seq<Definition> := [];
    PrependItem([], [], Grammar.Definitions(s.source, s.At()));
    while true
      invariant s.Valid() && s.headerStart.None?
      invariant Grammar.Definitions(s.source, old(s.At()))
             == Prepend(definitions, Grammar.Definitions(s.source, s.At()))
      decreases |s.source.bytes| - s.offset
    {
      var next :- s.Peek();
      if next.None? {
        PrependItem(definitions, [], Ok([]));
        return Ok(definitions);
      }
      ghost var here := s.At();
      var item :- ReadItem(s, next.value);
      PrependItem(definitions, Found(item), Grammar.Definitions(s.source, s.At()));
      assert Grammar.Definitions(s.source, here) == Prepend(Found(item), Grammar.Definitions(s.source, s.At()));
      definitions := definitions + Found(item);
    }
  }

  /** The index of everything a reader delivers. */
  method Index(reader: Reader) returns (r: Result<seq<Definition>, Error>)
    modifies reader
    ensures r == Grammar.Index(Source(old(reader.data), reader.ending))
  {
    var stream := new Stream(reader);
    r := Scan(stream);
  }
}
